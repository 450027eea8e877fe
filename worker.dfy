/**
 * Worker.cs: the background sync cycle. Each cycle resolves the delay until
 * the next one, connects to Nebim, and for every active device open at this
 * time of day fetches the previous hour's visitor counts from Pronet, posts
 * one Nebim document per statistic line, and records one history row.
 */
module Worker {
  import opened Wrappers
  import opened Decimal
  import opened Calendar
  import opened DateFormat
  import opened DataModels
  import opened NebimPostRequests
  import opened Database

  // ---------------------------------------------------------------------
  // Scheduler frequency
  // ---------------------------------------------------------------------

  const FrequencyKey: string := "Scheduler:FrequencyMinutes"
  const DefaultDelayMinutes: int := 60

  /** The white space `NumberStyles.Integer` lets surround a number: U+0009..U+000D and U+0020. */
  predicate IsParseWhiteSpace(c: char) {
    c == ' ' || '\t' <= c <= '\r'
  }

  function TrimLeading(s: string): (t: string)
    ensures |t| <= |s| && (t == [] || !IsParseWhiteSpace(t[0]))
  {
    if s != [] && IsParseWhiteSpace(s[0]) then TrimLeading(s[1..]) else s
  }

  function TrimTrailing(s: string): (t: string)
    ensures |t| <= |s| && (t == [] || !IsParseWhiteSpace(t[|t| - 1]))
  {
    if s != [] && IsParseWhiteSpace(s[|s| - 1]) then TrimTrailing(s[..|s| - 1]) else s
  }

  /**
   * `int.TryParse(s, out n)`: optional white space around an optional sign
   * and at least one ASCII digit, within the range of `int`; `None` where
   * it returns false.
   */
  function ParseInt32(s: Option<string>): Option<Int32> {
    if s.None? then None
    else
      var t := TrimTrailing(TrimLeading(s.value));
      var negative := t != [] && t[0] == '-';
      var digits := if t != [] && (t[0] == '-' || t[0] == '+') then t[1..] else t;
      if digits == [] || !AllDigits(digits) then None
      else
        var magnitude: int := ParseDigits(digits);
        var v := if negative then -magnitude else magnitude;
        if -0x8000_0000 <= v < 0x8000_0000 then Some(v) else None
  }

  /** The delay in minutes before the next cycle: the setting if it parses as a positive `int`, else 60. */
  function ResolveFrequency(setting: Option<string>): (minutes: int)
    ensures 1 <= minutes < 0x8000_0000
    ensures minutes == DefaultDelayMinutes <==> !(ParseInt32(setting).Some? && ParseInt32(setting).value > 0) || ParseInt32(setting) == Some(60)
    ensures minutes != DefaultDelayMinutes ==> ParseInt32(setting) == Some(minutes)
  {
    var freq := ParseInt32(setting);
    if freq.Some? && freq.value > 0 then freq.value else DefaultDelayMinutes
  }

  lemma TrimDecimal(n: nat)
    ensures TrimTrailing(TrimLeading(ToDecimal(n))) == ToDecimal(n)
  {
    var s := ToDecimal(n);
    assert IsDigit(s[0]) && IsDigit(s[|s| - 1]);
  }

  /** A positive `int` written in decimal is taken as it is. */
  lemma FrequencyFromDecimal(n: nat)
    requires 0 < n < 0x8000_0000
    ensures ResolveFrequency(Some(ToDecimal(n))) == n
  {
    TrimDecimal(n);
    ToDecimalRoundTrip(n);
  }

  /** A missing setting, zero, a negative value, or a value that is not a number gives 60. */
  lemma FrequencyDefaults(n: nat)
    ensures ResolveFrequency(None) == 60
    ensures ResolveFrequency(Some("")) == 60
    ensures ResolveFrequency(Some("0")) == 60
    ensures ResolveFrequency(Some("abc")) == 60
    ensures ResolveFrequency(Some("-" + ToDecimal(n))) == 60
  {
    assert TrimTrailing(TrimLeading("0")) == "0";
    assert ParseDigits("0") == 0 by { assert "0"[..0] == []; }
    assert TrimTrailing(TrimLeading("abc")) == "abc";
    assert !IsDigit("abc"[0]);
    var s := "-" + ToDecimal(n);
    assert IsDigit(s[|s| - 1]);
    assert TrimTrailing(TrimLeading(s)) == s;
    assert s[1..] == ToDecimal(n);
  }

  // ---------------------------------------------------------------------
  // Opening hours and the time bucket
  // ---------------------------------------------------------------------

  /** The device is open at `now`: `OpeningTime <= currentTime <= ClosingTime`, both ends included. */
  predicate InWindow(device: Device, now: DateTime)
    requires now.Valid()
  {
    !(TimeOfDay(now) < device.openingTime || TimeOfDay(now) > device.closingTime)
  }

  /** A device that opens after it closes is never in its window. */
  lemma InvertedWindowNeverOpen(device: Device, now: DateTime)
    requires now.Valid() && device.openingTime > device.closingTime
    ensures !InWindow(device, now)
  {
  }

  /**
   * The previous whole hour: `start` is `now` truncated to the hour minus
   * one hour, `end` is `start` plus one hour minus one second; `None` where
   * `AddHours` or `AddSeconds` throws.
   */
  function HourBucket(now: DateTime): Option<(DateTime, DateTime)> {
    match AddHours(TruncateToHour(now), -1)
    case None => None
    case Some(start) =>
      match AddHours(start, 1)
      case None => None
      case Some(next) =>
        match AddSeconds(next, -1)
        case None => None
        case Some(end) => Some((start, end))
  }

  lemma AddOneHour(dt: DateTime)
    ensures AddHours(dt, -1) == PreviousHour(dt) && AddHours(dt, 1) == NextHour(dt)
  {
  }

  lemma AddOneSecondBack(dt: DateTime)
    ensures AddSeconds(dt, -1) == PreviousSecond(dt)
  {
  }

  /** One second before the top of an hour is second 59 of minute 59 of the hour before. */
  lemma SecondBeforeHour(t: DateTime)
    requires t.Valid() && t.minute == 0 && t.second == 0 && PreviousHour(t).Some?
    ensures PreviousSecond(t) == Some(PreviousHour(t).value.(minute := 59, second := 59))
  {
    if t.hour == 0 {
      var x := t.(hour := 23);
      assert PreviousSecond(t) == PreviousDay(x.(minute := 59, second := 59));
    }
  }

  /**
   * The bucket exists for every `now` but the first hour of 0001-01-01. It
   * is the hour before the one `now` is in, from minute 0 second 0 to minute
   * 59 second 59, on the same calendar hour.
   */
  lemma HourBucketSpec(now: DateTime)
    requires now.Valid()
    ensures HourBucket(now).Some? <==> !(IsFirstDay(now) && now.hour == 0)
    ensures HourBucket(now).Some? ==>
      var (start, end) := HourBucket(now).value;
      && start.Valid() && end.Valid()
      && start.minute == 0 && start.second == 0 && start.fraction == 0
      && Seconds(start) == Seconds(TruncateToHour(now)) - 3600
      && Seconds(start) <= Seconds(now) - 3600 < Seconds(start) + 3600
      && end == start.(minute := 59, second := 59)
      && Seconds(end) == Seconds(start) + 3599
  {
    var t := TruncateToHour(now);
    TruncateToHourSpec(now);
    PreviousHourSpec(t);
    AddOneHour(t);
    if PreviousHour(t).Some? {
      var start := PreviousHour(t).value;
      AddOneHour(start);
      AddOneSecondBack(t);
      SecondBeforeHour(t);
      assert HourBucket(now) == Some((start, start.(minute := 59, second := 59)));
    }
  }

  /** 2024-01-01 14:37 gives 13:00:00 .. 13:59:59 of the same day. */
  lemma HourBucketAfternoon()
    ensures HourBucket(DateTime(2024, 1, 1, 14, 37, 0, 0)) ==
      Some((DateTime(2024, 1, 1, 13, 0, 0, 0), DateTime(2024, 1, 1, 13, 59, 59, 0)))
  {
    HourBucketSpec(DateTime(2024, 1, 1, 14, 37, 0, 0));
  }

  /** 00:10 of 2024-01-01 rolls back to 23:00:00 .. 23:59:59 of 2023-12-31. */
  lemma HourBucketAfterMidnight()
    ensures HourBucket(DateTime(2024, 1, 1, 0, 10, 0, 0)) ==
      Some((DateTime(2023, 12, 31, 23, 0, 0, 0), DateTime(2023, 12, 31, 23, 59, 59, 0)))
  {
    HourBucketSpec(DateTime(2024, 1, 1, 0, 10, 0, 0));
  }

  // ---------------------------------------------------------------------
  // The Nebim document for one statistic line
  // ---------------------------------------------------------------------

  /** The document posted for one statistic line of a device's bucket. */
  function BuildRequest(device: Device, start: DateTime, stat: StoreStatistic): (r: NebimPostRequest)
    ensures r.header.officeCode == device.nebimOfficeCode
    ensures r.header.storeCode == device.nebimStoreCode && r.header.warehouseCode == device.nebimStoreCode
    ensures r.header.docDate == FormatDocDate(start) && r.header.docTime == FormatDocTime(start)
    ensures r.header.modelType == 11 && r.header.description == "INOUT"
    ensures r.lines == [NebimLine(stat.totalEnterCount, 0, "Giren-Çıkan Adet")]
  {
    var header := NewHeader(device.nebimOfficeCode, device.nebimStoreCode, device.nebimStoreCode,
                            FormatDocDate(start), FormatDocTime(start));
    NewPostRequest(header).(lines := [NewLine(stat.totalEnterCount)])
  }

  /** The document's date and time read back as the bucket's start: 8 and 6 digits. */
  lemma RequestStampsStart(device: Device, start: DateTime, stat: StoreStatistic)
    requires start.Valid()
    ensures var h := BuildRequest(device, start, stat).header;
      && |h.docDate| == 8 && |h.docTime| == 6
      && ParseDocDate(h.docDate) == Some((start.year, start.month, start.day))
      && ParseDocTime(h.docTime) == Some((start.hour, start.minute, start.second))
  {
    DocDateRoundTrip(start);
    DocTimeRoundTrip(start);
  }

  // ---------------------------------------------------------------------
  // The services as the cycle sees them
  // ---------------------------------------------------------------------

  /** `GetStatisticsAsync`: a response (possibly null), or an exception with its message. */
  datatype FetchResult = Fetched(response: Option<PronetApiResponse>) | FetchFailed(message: string)

  /** `PostInOutDataAsync`: a success flag, or an exception with its message. */
  datatype PostResult = Posted(success: bool) | PostFailed(message: string)

  type Fetcher = (Device, DateTime, DateTime) -> FetchResult
  type Poster = (Guid, NebimPostRequest) -> PostResult

  /** A request the cycle makes to a service, in the order it makes them. */
  datatype Call = FetchCall(device: Device, start: DateTime, end: DateTime)
                | PostCall(sessionId: Guid, request: NebimPostRequest)

  const SuccessStatus: string := "Başarılı"
  const SuccessMessage: string := "Veri başarıyla aktarıldı."
  const ErrorStatus: string := "Hata"
  const PostRejectedMessage: string := "Veri Nebim'e gönderilemedi."

  // ---------------------------------------------------------------------
  // The cycle, as a function of the service answers
  // ---------------------------------------------------------------------

  /** The calls made posting statistic lines in order, and the message of the failure that stopped them. */
  datatype PostRun = PostRun(calls: seq<Call>, error: Option<string>)

  /** The inner `foreach` over the statistic lines: it stops at the first post that fails or throws. */
  function PostLines(sessionId: Guid, device: Device, start: DateTime, stats: seq<StoreStatistic>,
                     post: Poster): PostRun
    decreases |stats|
  {
    if stats == [] then PostRun([], None)
    else
      var before := PostLines(sessionId, device, start, stats[..|stats| - 1], post);
      if before.error.Some? then before
      else
        var request := BuildRequest(device, start, stats[|stats| - 1]);
        PostRun(before.calls + [PostCall(sessionId, request)], Failure(post(sessionId, request)))
  }

  /** The exception a post's answer raises in the loop: none when accepted, the thrown one, or the rejection. */
  function Failure(result: PostResult): Option<string> {
    match result
    case Posted(success) => if success then None else Some(PostRejectedMessage)
    case PostFailed(message) => Some(message)
  }

  /** What a device contributes to the cycle: nothing, one history row, or an exception that ends it. */
  datatype DeviceOutcome = Skipped | Recorded(status: string, message: string) | Raised

  datatype DeviceRun = DeviceRun(calls: seq<Call>, outcome: DeviceOutcome)

  /** One pass of the device loop. */
  function ProcessDevice(device: Device, now: DateTime, sessionId: Guid, fetch: Fetcher, post: Poster): DeviceRun
    requires now.Valid()
  {
    if !InWindow(device, now) then DeviceRun([], Skipped)
    else match HourBucket(now)
      case None => DeviceRun([], Raised)
      case Some((start, end)) =>
        var fetchCall := FetchCall(device, start, end);
        match fetch(device, start, end)
        case FetchFailed(message) => DeviceRun([fetchCall], Recorded(ErrorStatus, message))
        case Fetched(response) =>
          var stats := StoreStatistics(response);
          if stats.None? || stats.value == [] then DeviceRun([fetchCall], Skipped)
          else
            var run := PostLines(sessionId, device, start, stats.value, post);
            DeviceRun([fetchCall] + run.calls,
                      if run.error.None? then Recorded(SuccessStatus, SuccessMessage)
                      else Recorded(ErrorStatus, run.error.value))
  }

  /** The calls, the new history rows, and whether an exception ended the cycle. */
  datatype CycleRun = CycleRun(calls: seq<Call>, rows: seq<SyncHistory>, faulted: bool)

  /**
   * The device loop over `devices`. `clock(k)` is the `DateTime.Now` read
   * for the k-th history row of the cycle.
   */
  function RunDevices(devices: seq<Device>, now: DateTime, sessionId: Guid, fetch: Fetcher, post: Poster,
                      clock: nat -> DateTime): CycleRun
    requires now.Valid()
    decreases |devices|
  {
    if devices == [] then CycleRun([], [], false)
    else
      var before := RunDevices(devices[..|devices| - 1], now, sessionId, fetch, post, clock);
      if before.faulted then before
      else
        var device := devices[|devices| - 1];
        Advance(before, device, ProcessDevice(device, now, sessionId, fetch, post), clock)
  }

  /** The cycle after one more device. */
  function Advance(before: CycleRun, device: Device, run: DeviceRun, clock: nat -> DateTime): CycleRun {
    match run.outcome
    case Skipped => CycleRun(before.calls + run.calls, before.rows, false)
    case Raised => CycleRun(before.calls + run.calls, before.rows, true)
    case Recorded(status, message) =>
      CycleRun(before.calls + run.calls,
               before.rows + [SyncHistory(clock(|before.rows|), device.nebimStoreCode, status, message)], false)
  }

  lemma RunDevicesStep(devices: seq<Device>, now: DateTime, sessionId: Guid, fetch: Fetcher, post: Poster,
                       clock: nat -> DateTime, i: nat)
    requires now.Valid() && i < |devices| && !RunDevices(devices[..i], now, sessionId, fetch, post, clock).faulted
    ensures RunDevices(devices[..i + 1], now, sessionId, fetch, post, clock) ==
      Advance(RunDevices(devices[..i], now, sessionId, fetch, post, clock), devices[i],
              ProcessDevice(devices[i], now, sessionId, fetch, post), clock)
  {
    assert devices[..i + 1][..i] == devices[..i];
  }

  /** `Devices.Where(d => d.IsActive)`, in table order. */
  function ActiveDevices(devices: seq<Device>): (active: seq<Device>)
    ensures forall d :: d in active <==> d in devices && d.isActive
    ensures |active| <= |devices|
  {
    if devices == [] then []
    else ActiveDevices(devices[..|devices| - 1]) + if devices[|devices| - 1].isActive then [devices[|devices| - 1]] else []
  }

  /** `Where` keeps table order: filtering a concatenation filters each part and joins them. */
  lemma {:induction false} ActiveDevicesAppend(a: seq<Device>, b: seq<Device>)
    ensures ActiveDevices(a + b) == ActiveDevices(a) + ActiveDevices(b)
    decreases |b|
  {
    if b == [] {
      assert a + b == a;
    } else {
      var init, last := b[..|b| - 1], b[|b| - 1];
      assert (a + b)[..|a + b| - 1] == a + init;
      assert (a + b)[|a + b| - 1] == last;
      ActiveDevicesAppend(a, init);
      var keep := if last.isActive then [last] else [];
      assert ActiveDevices(b) == ActiveDevices(init) + keep;
      assert ActiveDevices(a + b) == ActiveDevices(a + init) + keep;
    }
  }

  /** A single device is kept exactly when it is active. */
  lemma ActiveDevicesSingle(d: Device)
    ensures ActiveDevices([d]) == if d.isActive then [d] else []
  {
    assert [d][..0] == [];
  }

  /** How a cycle ends: aborted for want of a session, run to the end, or ended by an exception. */
  datatype CycleOutcome = Aborted | Completed | Faulted

  // ---------------------------------------------------------------------
  // ProcessDataTransfer
  // ---------------------------------------------------------------------

  lemma PostErrorSticks(sessionId: Guid, device: Device, start: DateTime, stats: seq<StoreStatistic>,
                        post: Poster, j: nat)
    requires j <= |stats| && PostLines(sessionId, device, start, stats[..j], post).error.Some?
    ensures PostLines(sessionId, device, start, stats, post) == PostLines(sessionId, device, start, stats[..j], post)
    decreases |stats| - j
  {
    if j < |stats| {
      assert stats[..j + 1][..j] == stats[..j];
      PostErrorSticks(sessionId, device, start, stats, post, j + 1);
    } else {
      assert stats[..j] == stats;
    }
  }

  lemma FaultSticks(devices: seq<Device>, now: DateTime, sessionId: Guid, fetch: Fetcher, post: Poster,
                    clock: nat -> DateTime, i: nat)
    requires now.Valid() && i <= |devices| && RunDevices(devices[..i], now, sessionId, fetch, post, clock).faulted
    ensures RunDevices(devices, now, sessionId, fetch, post, clock) == RunDevices(devices[..i], now, sessionId, fetch, post, clock)
    decreases |devices| - i
  {
    if i < |devices| {
      assert devices[..i + 1][..i] == devices[..i];
      FaultSticks(devices, now, sessionId, fetch, post, clock, i + 1);
    } else {
      assert devices[..i] == devices;
    }
  }

  /** The inner `foreach`: posts the lines in order until one fails, and reports that failure's message. */
  method PostStatistics(sessionId: Guid, device: Device, startTime: DateTime, stats: seq<StoreStatistic>,
                        post: Poster) returns (calls: seq<Call>, error: Option<string>)
    ensures PostRun(calls, error) == PostLines(sessionId, device, startTime, stats, post)
  {
    calls, error := [], None;
    var j := 0;
    while j < |stats| && error.None?
      invariant 0 <= j <= |stats|
      invariant PostRun(calls, error) == PostLines(sessionId, device, startTime, stats[..j], post)
    {
      assert stats[..j + 1][..j] == stats[..j];
      var nebimRequest := BuildRequest(device, startTime, stats[j]);
      calls := calls + [PostCall(sessionId, nebimRequest)];
      var result := post(sessionId, nebimRequest);
      if result.PostFailed? {
        error := Some(result.message);
      } else if !result.success {
        // `throw new Exception("Veri Nebim'e gönderilemedi.")`
        error := Some(PostRejectedMessage);
      }
      assert error == Failure(result);
      j := j + 1;
    }
    if error.Some? {
      PostErrorSticks(sessionId, device, startTime, stats, post, j);
    } else {
      assert stats[..j] == stats;
    }
  }

  /**
   * One pass of the device loop: the window check, the bucket, the fetch,
   * the posts, and the history row stamped `runTime`.
   */
  method TransferDevice(db: AppDb, device: Device, now: DateTime, sessionId: Guid, fetch: Fetcher, post: Poster,
                        runTime: DateTime) returns (calls: seq<Call>, outcome: DeviceOutcome)
    requires now.Valid()
    modifies db`syncHistories
    ensures DeviceRun(calls, outcome) == ProcessDevice(device, now, sessionId, fetch, post)
    ensures db.syncHistories == old(db.syncHistories) +
      if outcome.Recorded? then [SyncHistory(runTime, device.nebimStoreCode, outcome.status, outcome.message)] else []
  {
    var currentTime := TimeOfDay(now);
    if currentTime < device.openingTime || currentTime > device.closingTime {
      return [], Skipped;
    }
    var bucket := HourBucket(now);
    if bucket.None? {
      // `AddHours(-1)` throws outside the `try`.
      return [], Raised;
    }
    var (startTime, endTime) := bucket.value;
    var status, message := SuccessStatus, SuccessMessage;
    calls := [FetchCall(device, startTime, endTime)];
    var pronetData := fetch(device, startTime, endTime);
    if pronetData.FetchFailed? {
      status, message := ErrorStatus, pronetData.message;
    } else {
      var stats := StoreStatistics(pronetData.response);
      if stats.None? || |stats.value| == 0 {
        return calls, Skipped;
      }
      var postCalls, error := PostStatistics(sessionId, device, startTime, stats.value, post);
      calls := calls + postCalls;
      if error.Some? {
        status, message := ErrorStatus, error.value;
      }
    }
    db.syncHistories := db.syncHistories + [SyncHistory(runTime, device.nebimStoreCode, status, message)];
    outcome := Recorded(status, message);
  }

  /**
   * `ProcessDataTransfer`: `sessionId` is what `ConnectAsync` returned and
   * `now` the one reading of `DateTime.Now` before the device loop. The
   * history table is only appended to, with the rows of `RunDevices`.
   */
  method ProcessDataTransfer(db: AppDb, sessionId: Guid, now: DateTime, fetch: Fetcher, post: Poster,
                             clock: nat -> DateTime) returns (calls: seq<Call>, outcome: CycleOutcome)
    requires now.Valid()
    modifies db`syncHistories
    ensures sessionId == EmptyGuid ==>
      calls == [] && outcome == Aborted && db.syncHistories == old(db.syncHistories)
    ensures sessionId != EmptyGuid ==>
      var run := RunDevices(ActiveDevices(db.devices), now, sessionId, fetch, post, clock);
      && calls == run.calls
      && db.syncHistories == old(db.syncHistories) + run.rows
      && outcome == if run.faulted then Faulted else Completed
  {
    calls := [];
    if sessionId == EmptyGuid {
      return calls, Aborted;
    }
    var activeDevices := ActiveDevices(db.devices);
    var recorded := 0;
    for i := 0 to |activeDevices|
      invariant var run := RunDevices(activeDevices[..i], now, sessionId, fetch, post, clock);
        && !run.faulted && calls == run.calls && recorded == |run.rows|
        && db.syncHistories == old(db.syncHistories) + run.rows
    {
      RunDevicesStep(activeDevices, now, sessionId, fetch, post, clock, i);
      var deviceCalls, deviceOutcome := TransferDevice(db, activeDevices[i], now, sessionId, fetch, post, clock(recorded));
      calls := calls + deviceCalls;
      if deviceOutcome.Raised? {
        FaultSticks(activeDevices, now, sessionId, fetch, post, clock, i + 1);
        return calls, Faulted;
      }
      if deviceOutcome.Recorded? {
        recorded := recorded + 1;
      }
    }
    assert activeDevices[..|activeDevices|] == activeDevices;
    outcome := Completed;
  }

  // ---------------------------------------------------------------------
  // What a cycle does
  // ---------------------------------------------------------------------

  /** `calls` are the posts of the first `n` lines, one request per line, in order. */
  predicate PostsOf(calls: seq<Call>, sessionId: Guid, device: Device, start: DateTime, stats: seq<StoreStatistic>,
                    n: nat)
    requires n <= |stats|
  {
    |calls| == n && forall k :: 0 <= k < n ==> calls[k] == PostCall(sessionId, BuildRequest(device, start, stats[k]))
  }

  /** Nebim accepted the document of line `k`. */
  predicate Accepted(post: Poster, sessionId: Guid, device: Device, start: DateTime, stats: seq<StoreStatistic>, k: nat)
    requires k < |stats|
  {
    post(sessionId, BuildRequest(device, start, stats[k])) == Posted(true)
  }

  /**
   * Posting the lines either gets every one accepted, having posted each
   * once in order, or stops at the first line `j` not accepted, having
   * posted lines 0..j, and reports that line's failure.
   */
  lemma {:induction false} PostLinesSpec(sessionId: Guid, device: Device, start: DateTime, stats: seq<StoreStatistic>,
                                         post: Poster)
    ensures var run := PostLines(sessionId, device, start, stats, post);
      run.error.None? <==> forall k :: 0 <= k < |stats| ==> Accepted(post, sessionId, device, start, stats, k)
    ensures var run := PostLines(sessionId, device, start, stats, post);
      run.error.None? ==> PostsOf(run.calls, sessionId, device, start, stats, |stats|)
    ensures var run := PostLines(sessionId, device, start, stats, post);
      run.error.Some? ==>
        exists j :: 0 <= j < |stats|
          && PostsOf(run.calls, sessionId, device, start, stats, j + 1)
          && (forall k :: 0 <= k < j ==> Accepted(post, sessionId, device, start, stats, k))
          && run.error == Failure(post(sessionId, BuildRequest(device, start, stats[j])))
    decreases |stats|
  {
    if stats != [] {
      var n := |stats| - 1;
      var init := stats[..n];
      PostLinesSpec(sessionId, device, start, init, post);
      var before := PostLines(sessionId, device, start, init, post);
      if before.error.Some? {
        var j :| 0 <= j < n
          && PostsOf(before.calls, sessionId, device, start, init, j + 1)
          && (forall k :: 0 <= k < j ==> Accepted(post, sessionId, device, start, init, k))
          && before.error == Failure(post(sessionId, BuildRequest(device, start, init[j])));
        PostLinesStopped(sessionId, device, start, stats, post, j);
      } else {
        PostLinesContinued(sessionId, device, start, stats, post);
      }
    }
  }

  /** Once an earlier line failed, the last line is not posted and the failure stands. */
  lemma PostLinesStopped(sessionId: Guid, device: Device, start: DateTime, stats: seq<StoreStatistic>,
                         post: Poster, j: nat)
    requires j + 1 < |stats|
    requires var init := stats[..|stats| - 1];
      var before := PostLines(sessionId, device, start, init, post);
      && before.error.Some?
      && PostsOf(before.calls, sessionId, device, start, init, j + 1)
      && (forall k :: 0 <= k < j ==> Accepted(post, sessionId, device, start, init, k))
      && before.error == Failure(post(sessionId, BuildRequest(device, start, init[j])))
    ensures var run := PostLines(sessionId, device, start, stats, post);
      && run.error.Some?
      && PostsOf(run.calls, sessionId, device, start, stats, j + 1)
      && (forall k :: 0 <= k < j ==> Accepted(post, sessionId, device, start, stats, k))
      && run.error == Failure(post(sessionId, BuildRequest(device, start, stats[j])))
      && !Accepted(post, sessionId, device, start, stats, j)
  {
    var init := stats[..|stats| - 1];
    assert forall k :: 0 <= k < |init| ==> init[k] == stats[k];
    forall k | 0 <= k < j ensures Accepted(post, sessionId, device, start, stats, k) {
      assert Accepted(post, sessionId, device, start, init, k);
    }
  }

  /** After every earlier line was accepted, the last line is posted and its answer decides. */
  lemma PostLinesContinued(sessionId: Guid, device: Device, start: DateTime, stats: seq<StoreStatistic>, post: Poster)
    requires stats != []
    requires var init := stats[..|stats| - 1];
      var before := PostLines(sessionId, device, start, init, post);
      && before.error.None?
      && PostsOf(before.calls, sessionId, device, start, init, |init|)
      && (forall k :: 0 <= k < |init| ==> Accepted(post, sessionId, device, start, init, k))
    ensures var run := PostLines(sessionId, device, start, stats, post);
      var n := |stats| - 1;
      && PostsOf(run.calls, sessionId, device, start, stats, n + 1)
      && (forall k :: 0 <= k < n ==> Accepted(post, sessionId, device, start, stats, k))
      && (run.error.None? <==> Accepted(post, sessionId, device, start, stats, n))
      && run.error == Failure(post(sessionId, BuildRequest(device, start, stats[n])))
  {
    var n := |stats| - 1;
    var init := stats[..n];
    assert forall k :: 0 <= k < n ==> init[k] == stats[k];
    forall k | 0 <= k < n ensures Accepted(post, sessionId, device, start, stats, k) {
      assert Accepted(post, sessionId, device, start, init, k);
    }
  }

  /** The device is past both skips and gets a history row: open, a bucket, and a failure or some statistics. */
  predicate GetsRow(device: Device, now: DateTime, fetch: Fetcher)
    requires now.Valid()
  {
    && InWindow(device, now)
    && HourBucket(now).Some?
    && var (start, end) := HourBucket(now).value;
       match fetch(device, start, end)
       case FetchFailed(_) => true
       case Fetched(response) => StoreStatistics(response).Some? && StoreStatistics(response).value != []
  }

  /**
   * A device outside its window makes no call. An open one fetches its
   * bucket first; it gets a row exactly when `GetsRow` holds, and the row
   * reports success exactly when the fetch gave statistics and Nebim
   * accepted every line.
   */
  lemma ProcessDeviceSpec(device: Device, now: DateTime, sessionId: Guid, fetch: Fetcher, post: Poster)
    requires now.Valid()
    ensures var r := ProcessDevice(device, now, sessionId, fetch, post);
      && (!InWindow(device, now) ==> r == DeviceRun([], Skipped))
      && (r.outcome.Raised? <==> InWindow(device, now) && HourBucket(now).None?)
      && (r.outcome.Recorded? <==> GetsRow(device, now, fetch))
      && (r.calls != [] ==>
            && InWindow(device, now) && HourBucket(now).Some?
            && r.calls[0] == FetchCall(device, HourBucket(now).value.0, HourBucket(now).value.1))
      && (r.outcome.Recorded? ==> r.outcome.status in {SuccessStatus, ErrorStatus})
      && (r.outcome == Recorded(SuccessStatus, SuccessMessage) <==>
            && GetsRow(device, now, fetch)
            && var (start, end) := HourBucket(now).value;
               && fetch(device, start, end).Fetched?
               && var stats := StoreStatistics(fetch(device, start, end).response);
                  forall k :: 0 <= k < |stats.value| ==> Accepted(post, sessionId, device, start, stats.value, k))
  {
    if InWindow(device, now) && HourBucket(now).Some? {
      var (start, end) := HourBucket(now).value;
      var f := fetch(device, start, end);
      if f.Fetched? && StoreStatistics(f.response).Some? {
        PostLinesSpec(sessionId, device, start, StoreStatistics(f.response).value, post);
      }
    }
  }

  /**
   * The row a pass records: "Başarılı" only with "Veri başarıyla aktarıldı.",
   * otherwise "Hata"; a fetch that throws records its message.
   */
  lemma ProcessDeviceRowStatus(device: Device, now: DateTime, sessionId: Guid, fetch: Fetcher, post: Poster)
    requires now.Valid()
    ensures var r := ProcessDevice(device, now, sessionId, fetch, post);
      && (r.outcome.Recorded? && r.outcome.status == SuccessStatus ==> r.outcome.message == SuccessMessage)
      && (r.outcome.Recorded? && r.outcome.status != SuccessStatus ==> r.outcome.status == ErrorStatus)
      && (InWindow(device, now) && HourBucket(now).Some? &&
          fetch(device, HourBucket(now).value.0, HourBucket(now).value.1).FetchFailed? ==>
            r.outcome == Recorded(ErrorStatus, fetch(device, HourBucket(now).value.0, HourBucket(now).value.1).message))
  {
  }

  /**
   * When line `j` is the first Nebim does not accept, the pass records
   * "Hata" with that post's failure: the exception it threw, or
   * "Veri Nebim'e gönderilemedi." when it answered false.
   */
  lemma {:induction false} ProcessDeviceFirstRejection(device: Device, now: DateTime, sessionId: Guid, fetch: Fetcher,
                                                       post: Poster, j: nat)
    requires now.Valid() && InWindow(device, now) && HourBucket(now).Some?
    requires fetch(device, HourBucket(now).value.0, HourBucket(now).value.1).Fetched?
    requires StoreStatistics(fetch(device, HourBucket(now).value.0, HourBucket(now).value.1).response).Some?
    requires var stats := StoreStatistics(fetch(device, HourBucket(now).value.0, HourBucket(now).value.1).response).value;
      && j < |stats|
      && !Accepted(post, sessionId, device, HourBucket(now).value.0, stats, j)
      && forall k :: 0 <= k < j ==> Accepted(post, sessionId, device, HourBucket(now).value.0, stats, k)
    ensures var start := HourBucket(now).value.0;
      var stats := StoreStatistics(fetch(device, start, HourBucket(now).value.1).response).value;
      var answer := post(sessionId, BuildRequest(device, start, stats[j]));
      && Failure(answer).Some?
      && ProcessDevice(device, now, sessionId, fetch, post).outcome == Recorded(ErrorStatus, Failure(answer).value)
      && (answer == Posted(false) ==> Failure(answer).value == PostRejectedMessage)
  {
    var (start, end) := HourBucket(now).value;
    var stats := StoreStatistics(fetch(device, start, end).response).value;
    PostLinesFirstRejection(sessionId, device, start, stats, post, j);
  }

  /** Posting stops at the first line not accepted, with that line's failure. */
  lemma PostLinesFirstRejection(sessionId: Guid, device: Device, start: DateTime, stats: seq<StoreStatistic>,
                                post: Poster, j: nat)
    requires j < |stats| && !Accepted(post, sessionId, device, start, stats, j)
    requires forall k :: 0 <= k < j ==> Accepted(post, sessionId, device, start, stats, k)
    ensures PostLines(sessionId, device, start, stats, post).error ==
      Failure(post(sessionId, BuildRequest(device, start, stats[j])))
  {
    PostLinesSpec(sessionId, device, start, stats, post);
    var run := PostLines(sessionId, device, start, stats, post);
    assert run.error.Some?;
    var j' :| 0 <= j' < |stats|
      && PostsOf(run.calls, sessionId, device, start, stats, j' + 1)
      && (forall k :: 0 <= k < j' ==> Accepted(post, sessionId, device, start, stats, k))
      && run.error == Failure(post(sessionId, BuildRequest(device, start, stats[j'])));
    assert !Accepted(post, sessionId, device, start, stats, j');
  }

  /** The devices that get a history row, in the order they are processed. */
  function RowDevices(devices: seq<Device>, now: DateTime, fetch: Fetcher): seq<Device>
    requires now.Valid()
    decreases |devices|
  {
    if devices == [] then []
    else
      var last := devices[|devices| - 1];
      RowDevices(devices[..|devices| - 1], now, fetch) + if GetsRow(last, now, fetch) then [last] else []
  }

  /**
   * With a bucket, the cycle runs to the end and appends exactly one row per
   * device past both skips, in order: row k belongs to the k-th such device,
   * carries its `NebimStoreCode`, the k-th clock reading, and the status and
   * message that device's pass produced.
   */
  lemma {:induction false} CycleRows(devices: seq<Device>, now: DateTime, sessionId: Guid, fetch: Fetcher,
                                     post: Poster, clock: nat -> DateTime)
    requires now.Valid() && HourBucket(now).Some?
    ensures var run := RunDevices(devices, now, sessionId, fetch, post, clock);
      var owners := RowDevices(devices, now, fetch);
      && !run.faulted
      && |run.rows| == |owners|
      && forall k :: 0 <= k < |run.rows| ==>
           && run.rows[k].deviceStoreCode == owners[k].nebimStoreCode
           && run.rows[k].runTime == clock(k)
           && Recorded(run.rows[k].status, run.rows[k].message)
                == ProcessDevice(owners[k], now, sessionId, fetch, post).outcome
    decreases |devices|
  {
    if devices != [] {
      var n := |devices| - 1;
      var init, last := devices[..n], devices[n];
      CycleRows(init, now, sessionId, fetch, post, clock);
      ProcessDeviceSpec(last, now, sessionId, fetch, post);
      var before := RunDevices(init, now, sessionId, fetch, post, clock);
      var owners := RowDevices(devices, now, fetch);
      assert owners == RowDevices(init, now, fetch) + if GetsRow(last, now, fetch) then [last] else [];
    }
  }

  /**
   * Without a bucket (`now` in the first hour of 0001-01-01) no call is made
   * and no row is written; the cycle ends in an exception exactly when some
   * device is open.
   */
  lemma {:induction false} CycleWithoutBucket(devices: seq<Device>, now: DateTime, sessionId: Guid, fetch: Fetcher,
                                              post: Poster, clock: nat -> DateTime)
    requires now.Valid() && HourBucket(now).None?
    ensures var run := RunDevices(devices, now, sessionId, fetch, post, clock);
      && run.calls == [] && run.rows == []
      && (run.faulted <==> exists i :: 0 <= i < |devices| && InWindow(devices[i], now))
    decreases |devices|
  {
    if devices != [] {
      var n := |devices| - 1;
      var init := devices[..n];
      CycleWithoutBucket(init, now, sessionId, fetch, post, clock);
      ProcessDeviceSpec(devices[n], now, sessionId, fetch, post);
      if exists i :: 0 <= i < n && InWindow(init[i], now) {
        var i :| 0 <= i < n && InWindow(init[i], now);
        assert devices[i] == init[i];
      }
      if exists i :: 0 <= i < |devices| && InWindow(devices[i], now) {
        var i :| 0 <= i < |devices| && InWindow(devices[i], now);
        if i < n { assert init[i] == devices[i]; }
      }
    }
  }

  /**
   * A call made for device `d`: `d` is open, the call is the fetch of its
   * bucket, or a post, under the cycle's session id, of the document built
   * from one of the statistic lines that fetch returned.
   */
  predicate CallFor(c: Call, d: Device, now: DateTime, sessionId: Guid, fetch: Fetcher)
    requires now.Valid()
  {
    && InWindow(d, now)
    && HourBucket(now).Some?
    && var (start, end) := HourBucket(now).value;
       || c == FetchCall(d, start, end)
       || (&& c.PostCall? && c.sessionId == sessionId
           && fetch(d, start, end).Fetched?
           && var stats := StoreStatistics(fetch(d, start, end).response);
              stats.Some? && exists st :: st in stats.value && c.request == BuildRequest(d, start, st))
  }

  lemma DeviceCallsFor(d: Device, now: DateTime, sessionId: Guid, fetch: Fetcher, post: Poster)
    requires now.Valid()
    ensures forall c :: c in ProcessDevice(d, now, sessionId, fetch, post).calls ==> CallFor(c, d, now, sessionId, fetch)
  {
    if InWindow(d, now) && HourBucket(now).Some? {
      var (start, end) := HourBucket(now).value;
      var f := fetch(d, start, end);
      if f.Fetched? && StoreStatistics(f.response).Some? && StoreStatistics(f.response).value != [] {
        var stats := StoreStatistics(f.response).value;
        PostLinesSpec(sessionId, d, start, stats, post);
        var run := PostLines(sessionId, d, start, stats, post);
        forall c | c in run.calls ensures CallFor(c, d, now, sessionId, fetch) {
          var k :| 0 <= k < |run.calls| && run.calls[k] == c;
          if run.error.Some? {
            var j :| 0 <= j < |stats| && PostsOf(run.calls, sessionId, d, start, stats, j + 1);
            assert c == PostCall(sessionId, BuildRequest(d, start, stats[k]));
          } else {
            assert c == PostCall(sessionId, BuildRequest(d, start, stats[k]));
          }
          assert stats[k] in stats;
        }
      }
    }
  }

  /** Every call of a cycle is made for one of its devices, open at `now`. */
  lemma {:induction false} CycleCallsFor(devices: seq<Device>, now: DateTime, sessionId: Guid, fetch: Fetcher,
                                         post: Poster, clock: nat -> DateTime)
    requires now.Valid()
    ensures var run := RunDevices(devices, now, sessionId, fetch, post, clock);
      forall c :: c in run.calls ==> exists d :: d in devices && CallFor(c, d, now, sessionId, fetch)
    decreases |devices|
  {
    if devices != [] {
      var n := |devices| - 1;
      var init := devices[..n];
      CycleCallsFor(init, now, sessionId, fetch, post, clock);
      assert forall c :: c in RunDevices(init, now, sessionId, fetch, post, clock).calls ==>
        exists d :: d in init && CallFor(c, d, now, sessionId, fetch);
      DeviceCallsFor(devices[n], now, sessionId, fetch, post);
      var before := RunDevices(init, now, sessionId, fetch, post, clock);
      var r := ProcessDevice(devices[n], now, sessionId, fetch, post);
      var run := RunDevices(devices, now, sessionId, fetch, post, clock);
      assert run.calls == before.calls || run.calls == before.calls + r.calls;
      forall c | c in run.calls ensures exists d :: d in devices && CallFor(c, d, now, sessionId, fetch) {
        if c in before.calls {
          var d :| d in init && CallFor(c, d, now, sessionId, fetch);
          var i :| 0 <= i < n && init[i] == d;
          assert devices[i] == d;
        } else {
          assert c in r.calls;
          assert devices[n] in devices;
        }
      }
    }
  }

  /**
   * The whole transfer: with a session id, every fetch and post is made for
   * an active device open at `now`, under that session id.
   */
  lemma TransferCallsAreForActiveOpenDevices(table: seq<Device>, now: DateTime, sessionId: Guid, fetch: Fetcher,
                                              post: Poster, clock: nat -> DateTime)
    requires now.Valid()
    ensures var run := RunDevices(ActiveDevices(table), now, sessionId, fetch, post, clock);
      forall c :: c in run.calls ==>
        && (c.PostCall? ==> c.sessionId == sessionId)
        && exists d :: d in table && d.isActive && InWindow(d, now) && CallFor(c, d, now, sessionId, fetch)
  {
    CycleCallsFor(ActiveDevices(table), now, sessionId, fetch, post, clock);
  }
}
