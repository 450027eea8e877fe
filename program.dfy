/**
 * Program.cs: the admin endpoints of the web host. Settings are read as a
 * dictionary and upserted with password values protected; the dashboard
 * lists the newest history row of every store; devices are created,
 * updated field by field and deleted by primary key; the Pronet connection
 * test is mapped to an HTTP status.
 */
module AdminApi {
  import opened Wrappers
  import opened Decimal
  import opened Calendar
  import opened DataModels
  import opened Database
  import opened Settings
  import PronetClient

  // ---------------------------------------------------------------------
  // GET /api/settings
  // ---------------------------------------------------------------------

  predicate UniqueKeys(rows: seq<SettingRow>) {
    forall i, j :: 0 <= i < j < |rows| ==> rows[i].key != rows[j].key
  }

  /**
   * `Settings.ToDictionaryAsync(s => s.Key, s => s.Value ?? "")`; `None`
   * where a repeated key makes `ToDictionary` throw.
   */
  function SettingsView(rows: seq<SettingRow>): Option<map<string, string>> {
    if rows == [] then Some(map[])
    else
      var view := SettingsView(rows[..|rows| - 1]);
      var row := rows[|rows| - 1];
      if view.None? || row.key in view.value then None
      else Some(view.value[row.key := row.value.GetOr("")])
  }

  /**
   * The dictionary exists exactly when no key is repeated; its keys are
   * then the table's keys, and each maps to its row's value, null read as "".
   */
  lemma {:induction false} SettingsViewSpec(rows: seq<SettingRow>)
    ensures SettingsView(rows).Some? <==> UniqueKeys(rows)
    ensures SettingsView(rows).Some? ==>
      && (forall k :: k in SettingsView(rows).value <==> exists i :: 0 <= i < |rows| && rows[i].key == k)
      && (forall i :: 0 <= i < |rows| ==> SettingsView(rows).value[rows[i].key] == rows[i].value.GetOr(""))
  {
    if rows != [] {
      var init := rows[..|rows| - 1];
      var row := rows[|rows| - 1];
      SettingsViewSpec(init);
      assert forall i :: 0 <= i < |init| ==> init[i] == rows[i];
      if SettingsView(init).None? {
        var i, j :| 0 <= i < j < |init| && init[i].key == init[j].key;
        assert rows[i].key == rows[j].key;
      } else if row.key in SettingsView(init).value {
        var i :| 0 <= i < |init| && init[i].key == row.key;
        assert rows[i].key == rows[|rows| - 1].key;
      } else {
        forall i, j | 0 <= i < j < |rows| ensures rows[i].key != rows[j].key {
          if j == |rows| - 1 {
            assert init[i].key in SettingsView(init).value;
          }
        }
        var view := SettingsView(rows).value;
        forall k ensures k in view <==> exists i :: 0 <= i < |rows| && rows[i].key == k {
          if k in SettingsView(init).value {
            var i :| 0 <= i < |init| && init[i].key == k;
            assert rows[i].key == k;
          } else if k == row.key {
            assert rows[|rows| - 1].key == k;
          }
        }
        forall i | 0 <= i < |rows| ensures view[rows[i].key] == rows[i].value.GetOr("") {
          if i < |rows| - 1 {
            assert init[i] == rows[i];
          }
        }
      }
    }
  }

  /**
   * With one row per key, the dictionary holds a key exactly when the
   * settings reader finds a row for it, and shows that row's value.
   */
  lemma ViewAgreesWithRead(rows: seq<SettingRow>, key: string)
    requires UniqueKeys(rows)
    ensures SettingsView(rows).Some?
    ensures key in SettingsView(rows).value <==> FirstWithKey(rows, key).Some?
    ensures key in SettingsView(rows).value ==>
      SettingsView(rows).value[key] == FirstWithKey(rows, key).value.value.GetOr("")
  {
    SettingsViewSpec(rows);
    FirstWithKeySpec(rows, key);
    if key in SettingsView(rows).value {
      var i :| 0 <= i < |rows| && rows[i].key == key;
    }
  }

  // ---------------------------------------------------------------------
  // POST /api/settings
  // ---------------------------------------------------------------------

  /** The request body, a `Dictionary<string, string>`: its entries in order, each key once. */
  predicate DistinctKeys(entries: seq<(string, Option<string>)>) {
    forall i, j :: 0 <= i < j < |entries| ==> entries[i].0 != entries[j].0
  }

  /** The value stored for an entry: protected when the key names a password and the value is not empty. */
  function StoredValue(key: string, value: Option<string>, protect: string -> string): Option<string> {
    if IsPasswordKey(key) && !IsNullOrEmpty(value) then Some(protect(value.value)) else value
  }

  /** `Settings.FirstOrDefaultAsync(s => s.Key == key)`, as a position in the table. */
  function FirstIndex(rows: seq<SettingRow>, key: string): (r: Option<nat>)
    ensures r.Some? ==> r.value < |rows| && rows[r.value].key == key
    ensures r.Some? ==> forall j :: 0 <= j < r.value ==> rows[j].key != key
    ensures r.None? ==> forall j :: 0 <= j < |rows| ==> rows[j].key != key
  {
    if rows == [] then None
    else if rows[0].key == key then Some(0)
    else
      match FirstIndex(rows[1..], key)
      case None => None
      case Some(i) => Some(i + 1)
  }

  /** One iteration of the handler: overwrite the first row with the key, or add a row. */
  function Upsert(rows: seq<SettingRow>, key: string, value: Option<string>): seq<SettingRow> {
    match FirstIndex(rows, key)
    case Some(i) => rows[i := SettingRow(key, value)]
    case None => rows + [SettingRow(key, value)]
  }

  /** The whole handler: every entry upserted in order with its stored value. */
  function UpsertAll(rows: seq<SettingRow>, entries: seq<(string, Option<string>)>,
                     protect: string -> string): seq<SettingRow>
  {
    if entries == [] then rows
    else
      var e := entries[|entries| - 1];
      Upsert(UpsertAll(rows, entries[..|entries| - 1], protect), e.0, StoredValue(e.0, e.1, protect))
  }

  /** The `foreach` of the POST handler over the request body; `protect` is the data protector's `Protect`. */
  method PostSettings(db: AppDb, entries: seq<(string, Option<string>)>, protect: string -> string)
    requires DistinctKeys(entries)
    modifies db`settings
    ensures db.settings == UpsertAll(old(db.settings), entries, protect)
  {
    var i := 0;
    while i < |entries|
      invariant 0 <= i <= |entries|
      invariant db.settings == UpsertAll(old(db.settings), entries[..i], protect)
    {
      var key := entries[i].0;
      var valueToSave := entries[i].1;
      if IsPasswordKey(key) && !IsNullOrEmpty(valueToSave) {
        valueToSave := Some(protect(valueToSave.value));
      }
      var existing := FirstIndex(db.settings, key);
      if existing.Some? {
        db.settings := db.settings[existing.value := SettingRow(key, valueToSave)];
      } else {
        db.settings := db.settings + [SettingRow(key, valueToSave)];
      }
      assert entries[..i + 1][..i] == entries[..i];
      i := i + 1;
    }
    assert entries[..|entries|] == entries;
  }

  /** `FirstWithKey` finds the row at the first position carrying the key. */
  lemma {:induction false} FirstWithKeyAt(rows: seq<SettingRow>, key: string, i: nat)
    requires i < |rows| && rows[i].key == key && forall j :: 0 <= j < i ==> rows[j].key != key
    ensures FirstWithKey(rows, key) == Some(rows[i])
  {
    if i > 0 {
      assert rows[0].key != key;
      FirstWithKeyAt(rows[1..], key, i - 1);
    }
  }

  /** After an upsert, the key reads back the value written. */
  lemma UpsertReadsBack(rows: seq<SettingRow>, key: string, value: Option<string>)
    ensures FirstWithKey(Upsert(rows, key, value), key) == Some(SettingRow(key, value))
  {
    var after := Upsert(rows, key, value);
    match FirstIndex(rows, key)
    case Some(i) =>
      FirstWithKeyAt(after, key, i);
    case None =>
      FirstWithKeyAt(after, key, |rows|);
  }

  /** An upsert leaves what every other key reads unchanged. */
  lemma UpsertKeepsOthers(rows: seq<SettingRow>, key: string, value: Option<string>, other: string)
    requires other != key
    ensures FirstWithKey(Upsert(rows, key, value), other) == FirstWithKey(rows, other)
  {
    var after := Upsert(rows, key, value);
    assert forall j :: 0 <= j < |rows| && rows[j].key != key ==> after[j] == rows[j];
    assert forall j :: 0 <= j < |after| && after[j].key == other ==> j < |rows| && after[j] == rows[j];
    FirstWithKeySpec(rows, other);
    if FirstWithKey(rows, other).Some? {
      var m :| 0 <= m < |rows| && rows[m] == FirstWithKey(rows, other).value &&
        forall j :: 0 <= j < m ==> rows[j].key != other;
      FirstWithKeyAt(after, other, m);
    } else {
      FirstWithKeySpec(after, other);
    }
  }

  /** An upsert never introduces a second row for a key. */
  lemma UpsertKeepsUnique(rows: seq<SettingRow>, key: string, value: Option<string>)
    requires UniqueKeys(rows)
    ensures UniqueKeys(Upsert(rows, key, value))
  {
  }

  /** Every entry of the request reads back its stored value afterwards. */
  lemma {:induction false} UpsertAllReadsBack(rows: seq<SettingRow>, entries: seq<(string, Option<string>)>,
                                              protect: string -> string, n: nat)
    requires DistinctKeys(entries) && n < |entries|
    ensures FirstWithKey(UpsertAll(rows, entries, protect), entries[n].0) ==
      Some(SettingRow(entries[n].0, StoredValue(entries[n].0, entries[n].1, protect)))
  {
    var init := entries[..|entries| - 1];
    var e := entries[|entries| - 1];
    if n == |entries| - 1 {
      UpsertReadsBack(UpsertAll(rows, init, protect), e.0, StoredValue(e.0, e.1, protect));
    } else {
      assert init[n] == entries[n];
      UpsertAllReadsBack(rows, init, protect, n);
      UpsertKeepsOthers(UpsertAll(rows, init, protect), e.0, StoredValue(e.0, e.1, protect), entries[n].0);
    }
  }

  /** Keys absent from the request read as before. */
  lemma {:induction false} UpsertAllKeepsOthers(rows: seq<SettingRow>, entries: seq<(string, Option<string>)>,
                                                protect: string -> string, key: string)
    requires forall i :: 0 <= i < |entries| ==> entries[i].0 != key
    ensures FirstWithKey(UpsertAll(rows, entries, protect), key) == FirstWithKey(rows, key)
  {
    if entries != [] {
      var init := entries[..|entries| - 1];
      var e := entries[|entries| - 1];
      assert forall i :: 0 <= i < |init| ==> init[i] == entries[i];
      UpsertAllKeepsOthers(rows, init, protect, key);
      UpsertKeepsOthers(UpsertAll(rows, init, protect), e.0, StoredValue(e.0, e.1, protect), key);
    }
  }

  /** A table with one row per key keeps one row per key, so the GET endpoint stays answerable. */
  lemma {:induction false} UpsertAllKeepsUnique(rows: seq<SettingRow>, entries: seq<(string, Option<string>)>,
                                                protect: string -> string)
    requires UniqueKeys(rows)
    ensures UniqueKeys(UpsertAll(rows, entries, protect))
    ensures SettingsView(UpsertAll(rows, entries, protect)).Some?
  {
    if entries != [] {
      var e := entries[|entries| - 1];
      UpsertAllKeepsUnique(rows, entries[..|entries| - 1], protect);
      UpsertKeepsUnique(UpsertAll(rows, entries[..|entries| - 1], protect), e.0, StoredValue(e.0, e.1, protect));
    }
    SettingsViewSpec(UpsertAll(rows, entries, protect));
  }

  /**
   * What the sync cycle reads after a save: the value posted, decrypted
   * again for password keys, or the configuration when the value posted was
   * null or empty. `protect` is assumed to be inverted by `unprotect` and
   * never to produce an empty string, as a data protector's payload is not.
   */
  lemma SavedSettingIsRead(rows: seq<SettingRow>, entries: seq<(string, Option<string>)>,
                           protect: string -> string, unprotect: string -> Option<string>,
                           config: string -> Option<string>, n: nat)
    requires DistinctKeys(entries) && n < |entries|
    requires forall x :: unprotect(protect(x)) == Some(x) && protect(x) != ""
    ensures GetSetting(UpsertAll(rows, entries, protect), config, unprotect, entries[n].0) ==
      (if IsNullOrEmpty(entries[n].1) then config(entries[n].0) else entries[n].1)
  {
    UpsertAllReadsBack(rows, entries, protect, n);
  }

  /** A setting the request does not mention reads as before, whatever the protector does. */
  lemma UnsavedSettingIsUnchanged(rows: seq<SettingRow>, entries: seq<(string, Option<string>)>,
                                  protect: string -> string, unprotect: string -> Option<string>,
                                  config: string -> Option<string>, key: string)
    requires forall i :: 0 <= i < |entries| ==> entries[i].0 != key
    ensures GetSetting(UpsertAll(rows, entries, protect), config, unprotect, key) ==
      GetSetting(rows, config, unprotect, key)
  {
    UpsertAllKeepsOthers(rows, entries, protect, key);
  }

  // ---------------------------------------------------------------------
  // GET /api/dashboard/status
  // ---------------------------------------------------------------------

  /** The distinct store codes of the history, in order of first appearance. */
  function StoreCodes(histories: seq<SyncHistory>): (codes: seq<string>)
    ensures forall i, j :: 0 <= i < j < |codes| ==> codes[i] != codes[j]
    ensures forall c :: c in codes <==> exists k :: 0 <= k < |histories| && histories[k].deviceStoreCode == c
  {
    if histories == [] then []
    else
      var init := histories[..|histories| - 1];
      var code := histories[|histories| - 1].deviceStoreCode;
      assert forall k :: 0 <= k < |init| ==> init[k] == histories[k];
      var codes := StoreCodes(init);
      if code in codes then codes else codes + [code]
  }

  /** The rows of one store, in table order. */
  function WithCode(histories: seq<SyncHistory>, code: string): (group: seq<SyncHistory>)
    ensures forall h :: h in group <==> h in histories && h.deviceStoreCode == code
  {
    if histories == [] then []
    else
      var group := WithCode(histories[..|histories| - 1], code);
      var last := histories[|histories| - 1];
      assert forall h :: h in histories <==> h in histories[..|histories| - 1] || h == last;
      if last.deviceStoreCode == code then group + [last] else group
  }

  /** `OrderByDescending(h => h.RunTime).First()`: a row with the greatest run time, the earliest such. */
  function Newest(group: seq<SyncHistory>): (r: SyncHistory)
    requires group != []
    ensures r in group
    ensures forall h :: h in group ==> Ticks(h.runTime) <= Ticks(r.runTime)
  {
    if |group| == 1 then group[0]
    else
      var best := Newest(group[..|group| - 1]);
      var last := group[|group| - 1];
      assert forall h :: h in group <==> h in group[..|group| - 1] || h == last;
      if Ticks(last.runTime) > Ticks(best.runTime) then last else best
  }

  /** `SyncHistories.GroupBy(h => h.DeviceStoreCode).Select(g => g.OrderByDescending(h => h.RunTime).First())`. */
  function LatestPerStore(histories: seq<SyncHistory>): seq<SyncHistory> {
    var codes := StoreCodes(histories);
    seq(|codes|, i requires 0 <= i < |codes| =>
      assert codes[i] in codes;
      var k :| 0 <= k < |histories| && histories[k].deviceStoreCode == codes[i];
      assert histories[k] in WithCode(histories, codes[i]);
      Newest(WithCode(histories, codes[i])))
  }

  /** The dashboard row at position `i` is the newest row of the `i`-th store code. */
  lemma LatestAt(histories: seq<SyncHistory>, i: nat)
    requires i < |StoreCodes(histories)|
    ensures |LatestPerStore(histories)| == |StoreCodes(histories)|
    ensures var latest := LatestPerStore(histories)[i];
      && latest == Newest(WithCode(histories, StoreCodes(histories)[i]))
      && latest in histories
      && latest.deviceStoreCode == StoreCodes(histories)[i]
  {
  }

  /** The dashboard shows rows of the history, one per store code and one for every store code. */
  lemma LatestPerStoreRows(histories: seq<SyncHistory>)
    ensures |LatestPerStore(histories)| == |StoreCodes(histories)|
    ensures forall i :: 0 <= i < |LatestPerStore(histories)| ==> LatestPerStore(histories)[i] in histories
    ensures forall i, j :: 0 <= i < j < |LatestPerStore(histories)| ==>
      LatestPerStore(histories)[i].deviceStoreCode != LatestPerStore(histories)[j].deviceStoreCode
    ensures forall k :: 0 <= k < |histories| ==>
      exists i :: 0 <= i < |LatestPerStore(histories)| &&
        LatestPerStore(histories)[i].deviceStoreCode == histories[k].deviceStoreCode
  {
    var latest := LatestPerStore(histories);
    var codes := StoreCodes(histories);
    forall i | 0 <= i < |latest| ensures latest[i] in histories && latest[i].deviceStoreCode == codes[i] {
      LatestAt(histories, i);
    }
    forall k | 0 <= k < |histories|
      ensures exists i :: 0 <= i < |latest| && latest[i].deviceStoreCode == histories[k].deviceStoreCode
    {
      var c := histories[k].deviceStoreCode;
      assert c in codes;
      var i :| 0 <= i < |codes| && codes[i] == c;
      assert latest[i].deviceStoreCode == c;
    }
  }

  /** No row of a store is newer than the one the dashboard shows for it. */
  lemma LatestPerStoreIsNewest(histories: seq<SyncHistory>, i: nat, k: nat)
    requires i < |LatestPerStore(histories)| && k < |histories|
    requires histories[k].deviceStoreCode == LatestPerStore(histories)[i].deviceStoreCode
    ensures Ticks(histories[k].runTime) <= Ticks(LatestPerStore(histories)[i].runTime)
  {
    LatestAt(histories, i);
    assert histories[k] in WithCode(histories, StoreCodes(histories)[i]);
  }

  // ---------------------------------------------------------------------
  // POST, PUT and DELETE /api/devices
  // ---------------------------------------------------------------------

  /** The replies of the device endpoints; `ServerError` is an exception escaping `SaveChangesAsync`. */
  datatype DeviceReply = Created(location: string, device: Device) | Ok(device: Device) | NotFound | NoContent | ServerError

  /** An `int` interpolated into a string. */
  function IntText(n: int): string {
    if n < 0 then "-" + ToDecimal(-n) else ToDecimal(n)
  }

  /** `Devices.FindAsync(id)`, as a position in the table. */
  function FindDevice(devices: seq<Device>, id: int): (r: Option<nat>)
    ensures r.Some? ==> r.value < |devices| && devices[r.value].id == id
    ensures r.None? <==> forall i :: 0 <= i < |devices| ==> devices[i].id != id
  {
    if devices == [] then None
    else if devices[0].id == id then Some(0)
    else
      match FindDevice(devices[1..], id)
      case None => None
      case Some(i) => Some(i + 1)
  }

  /** The larger of `floor` and every id in the table. */
  function MaxId(devices: seq<Device>, floor: int): (m: int)
    ensures m >= floor && forall i :: 0 <= i < |devices| ==> devices[i].id <= m
    ensures m == floor || exists i :: 0 <= i < |devices| && devices[i].id == m
  {
    if devices == [] then floor
    else
      var m := MaxId(devices[..|devices| - 1], floor);
      var id := devices[|devices| - 1].id;
      if id > m then id else m
  }

  /** The device POST handler on the Devices table and its sequence; `now1`, `now2` are the two clock readings. */
  function CreateDevice(devices: seq<Device>, sequence: nat, device: Device, now1: DateTime,
                        now2: DateTime): (DeviceReply, seq<Device>, nat)
  {
    var stamped := device.(createdAt := now1, updatedAt := now2);
    if device.id != 0 && FindDevice(devices, device.id).Some? then (ServerError, devices, sequence)
    else
      var row := if device.id == 0 then stamped.(id := MaxId(devices, sequence) + 1) else stamped;
      (Created("/api/devices/" + IntText(row.id), row), devices + [row], if row.id > sequence then row.id else sequence)
  }

  /**
   * A new device is appended with the body's fields and both timestamps
   * from the clock; a zero id is replaced by one above the larger of every
   * id present and every id ever issued, and the sequence moves up to the
   * id inserted; a non-zero id already present fails the insert.
   */
  lemma CreateDeviceSpec(devices: seq<Device>, sequence: nat, device: Device, now1: DateTime, now2: DateTime)
    ensures var (reply, after, sequence') := CreateDevice(devices, sequence, device, now1, now2);
      if device.id != 0 && exists i :: 0 <= i < |devices| && devices[i].id == device.id then
        reply == ServerError && after == devices && sequence' == sequence
      else
        && reply.Created? && after == devices + [reply.device]
        && reply.device == device.(id := reply.device.id, createdAt := now1, updatedAt := now2)
        && (device.id != 0 ==> reply.device.id == device.id)
        && (device.id == 0 ==> reply.device.id == MaxId(devices, sequence) + 1)
        && (device.id == 0 ==> reply.device.id > sequence)
        && (device.id == 0 ==> forall i :: 0 <= i < |devices| ==> devices[i].id < reply.device.id)
        && reply.location == "/api/devices/" + IntText(reply.device.id)
        && sequence' == (if reply.device.id > sequence then reply.device.id else sequence)
  {
  }

  /** The device PUT handler: the six editable fields are copied from the body and the update time stamped. */
  function UpdateDevice(devices: seq<Device>, id: int, updated: Device, now: DateTime): (DeviceReply, seq<Device>) {
    match FindDevice(devices, id)
    case None => (NotFound, devices)
    case Some(i) =>
      var device := devices[i].(
        isActive := updated.isActive,
        nebimOfficeCode := updated.nebimOfficeCode,
        nebimStoreCode := updated.nebimStoreCode,
        macAddress := updated.macAddress,
        openingTime := updated.openingTime,
        closingTime := updated.closingTime,
        updatedAt := now);
      (Ok(device), devices[i := device])
  }

  /**
   * An unknown id is not found and changes nothing; otherwise only that
   * device changes: its editable fields come from the body, its id, Pronet
   * store code and creation time stay, and its update time is `now`.
   */
  lemma UpdateDeviceSpec(devices: seq<Device>, id: int, updated: Device, now: DateTime)
    requires UniqueIds(devices)
    ensures var (reply, after) := UpdateDevice(devices, id, updated, now);
      && (reply == NotFound <==> forall i :: 0 <= i < |devices| ==> devices[i].id != id)
      && (reply == NotFound ==> after == devices)
      && (reply != NotFound ==>
            exists i :: 0 <= i < |devices| && devices[i].id == id && after == devices[i := reply.device] &&
              reply.Ok?
              && reply.device.id == id
              && reply.device.isActive == updated.isActive
              && reply.device.nebimOfficeCode == updated.nebimOfficeCode
              && reply.device.nebimStoreCode == updated.nebimStoreCode
              && reply.device.macAddress == updated.macAddress
              && reply.device.openingTime == updated.openingTime
              && reply.device.closingTime == updated.closingTime
              && reply.device.pronetStoreCode == devices[i].pronetStoreCode
              && reply.device.createdAt == devices[i].createdAt
              && reply.device.updatedAt == now)
      && UniqueIds(after)
  {
  }

  /** The device DELETE handler. */
  function RemoveDevice(devices: seq<Device>, id: int): (DeviceReply, seq<Device>) {
    match FindDevice(devices, id)
    case None => (NotFound, devices)
    case Some(i) => (NoContent, devices[..i] + devices[i + 1..])
  }

  /** Removing position `i` shifts the later rows down by one. */
  lemma RemoveAt(devices: seq<Device>, i: nat)
    requires i < |devices|
    ensures var after := devices[..i] + devices[i + 1..];
      && |after| == |devices| - 1
      && (forall k :: 0 <= k < i ==> after[k] == devices[k])
      && (forall k :: i <= k < |after| ==> after[k] == devices[k + 1])
  {
  }

  /** An unknown id is not found and changes nothing; otherwise one device is removed. */
  lemma RemoveDeviceSpec(devices: seq<Device>, id: int)
    ensures RemoveDevice(devices, id).0 == NotFound <==> forall i :: 0 <= i < |devices| ==> devices[i].id != id
    ensures RemoveDevice(devices, id).0 == NotFound ==> RemoveDevice(devices, id).1 == devices
    ensures RemoveDevice(devices, id).0 != NotFound ==>
      RemoveDevice(devices, id).0 == NoContent && |RemoveDevice(devices, id).1| == |devices| - 1
  {
  }

  /** Exactly the device with the id is gone; every other device stays, and the ids stay unique. */
  lemma RemoveDeviceContents(devices: seq<Device>, id: int)
    requires UniqueIds(devices)
    ensures forall d :: d in RemoveDevice(devices, id).1 <==> d in devices && d.id != id
    ensures UniqueIds(RemoveDevice(devices, id).1)
  {
    if FindDevice(devices, id).Some? {
      var i := FindDevice(devices, id).value;
      RemovalKeepsOthers(devices, i);
      RemovalDropsOnlyId(devices, i);
      RemovalKeepsIds(devices, i);
    }
  }

  /** Every device without the removed id is still there. */
  lemma RemovalKeepsOthers(devices: seq<Device>, i: nat)
    requires i < |devices|
    ensures forall d :: d in devices && d.id != devices[i].id ==> d in devices[..i] + devices[i + 1..]
  {
    var after := devices[..i] + devices[i + 1..];
    RemoveAt(devices, i);
    forall d | d in devices && d.id != devices[i].id ensures d in after {
      var k :| 0 <= k < |devices| && devices[k] == d;
      if k < i { assert after[k] == d; } else { assert after[k - 1] == d; }
    }
  }

  /** What remains was in the table, and with unique ids none of it carries the removed id. */
  lemma RemovalDropsOnlyId(devices: seq<Device>, i: nat)
    requires i < |devices| && UniqueIds(devices)
    ensures forall d :: d in devices[..i] + devices[i + 1..] ==> d in devices && d.id != devices[i].id
  {
    var after := devices[..i] + devices[i + 1..];
    RemoveAt(devices, i);
    forall d | d in after ensures d in devices && d.id != devices[i].id {
      var k :| 0 <= k < |after| && after[k] == d;
      if k < i { assert devices[k] == d; } else { assert devices[k + 1] == d; }
    }
  }

  lemma RemovalKeepsIds(devices: seq<Device>, i: nat)
    requires i < |devices| && UniqueIds(devices)
    ensures UniqueIds(devices[..i] + devices[i + 1..])
  {
    var after := devices[..i] + devices[i + 1..];
    RemoveAt(devices, i);
    forall a, b | 0 <= a < b < |after| ensures after[a].id != after[b].id {
      var a' := if a < i then a else a + 1;
      var b' := if b < i then b else b + 1;
      assert after[a] == devices[a'] && after[b] == devices[b'];
    }
  }

  /** An id once issued is never issued again by AUTOINCREMENT, even after its device was deleted. */
  lemma DeletedIdIsNotReissued(devices: seq<Device>, sequence: nat, id: int, device: Device,
                               now1: DateTime, now2: DateTime)
    requires forall i :: 0 <= i < |devices| ==> devices[i].id <= sequence
    requires FindDevice(devices, id).Some? && device.id == 0
    ensures var (_, after) := RemoveDevice(devices, id);
      var (reply, _, _) := CreateDevice(after, sequence, device, now1, now2);
      reply.Created? && reply.device.id != id
  {
    var (_, after) := RemoveDevice(devices, id);
    var i := FindDevice(devices, id).value;
    assert devices[i].id == id;
    CreateDeviceSpec(after, sequence, device, now1, now2);
  }

  /** POST /api/devices on the database. */
  method PostDevice(db: AppDb, device: Device, now1: DateTime, now2: DateTime) returns (reply: DeviceReply)
    requires db.DevicesValid()
    modifies db`devices, db`deviceSequence
    ensures (reply, db.devices, db.deviceSequence) == CreateDevice(old(db.devices), old(db.deviceSequence), device, now1, now2)
    ensures db.DevicesValid()
  {
    var row := device;
    row := row.(createdAt := now1);
    row := row.(updatedAt := now2);
    if row.id != 0 && FindDevice(db.devices, row.id).Some? {
      return ServerError;
    }
    if row.id == 0 {
      row := row.(id := MaxId(db.devices, db.deviceSequence) + 1);
    }
    db.devices := db.devices + [row];
    if row.id > db.deviceSequence {
      db.deviceSequence := row.id;
    }
    reply := Created("/api/devices/" + IntText(row.id), row);
    assert FindDevice(old(db.devices), device.id).None? ==>
      forall i :: 0 <= i < |old(db.devices)| ==> old(db.devices)[i].id != row.id || device.id == 0;
  }

  /** PUT /api/devices/{id} on the database. */
  method PutDevice(db: AppDb, id: int, updatedDevice: Device, now: DateTime) returns (reply: DeviceReply)
    requires db.DevicesValid()
    modifies db`devices
    ensures (reply, db.devices) == UpdateDevice(old(db.devices), id, updatedDevice, now)
    ensures db.DevicesValid()
  {
    var found := FindDevice(db.devices, id);
    if found.None? {
      return NotFound;
    }
    var device := db.devices[found.value];
    device := device.(isActive := updatedDevice.isActive);
    device := device.(nebimOfficeCode := updatedDevice.nebimOfficeCode);
    device := device.(nebimStoreCode := updatedDevice.nebimStoreCode);
    device := device.(macAddress := updatedDevice.macAddress);
    device := device.(openingTime := updatedDevice.openingTime);
    device := device.(closingTime := updatedDevice.closingTime);
    device := device.(updatedAt := now);
    db.devices := db.devices[found.value := device];
    reply := Ok(device);
  }

  /** DELETE /api/devices/{id} on the database. */
  method DeleteDevice(db: AppDb, id: int) returns (reply: DeviceReply)
    requires db.DevicesValid()
    modifies db`devices
    ensures (reply, db.devices) == RemoveDevice(old(db.devices), id)
    ensures db.DevicesValid()
  {
    var found := FindDevice(db.devices, id);
    if found.None? {
      return NotFound;
    }
    RemovalKeepsIds(db.devices, found.value);
    db.devices := db.devices[..found.value] + db.devices[found.value + 1..];
    reply := NoContent;
  }

  // ---------------------------------------------------------------------
  // POST /api/test/pronet
  // ---------------------------------------------------------------------

  datatype TestReply = TestReply(status: int, success: bool, message: string)

  /** The test endpoint's reply for each outcome of `TestConnectionAsync`. */
  function TestPronetReply(outcome: PronetClient.TestOutcome): (r: TestReply)
    ensures r.status == 200 <==> outcome == PronetClient.Returned(true)
    ensures r.status == 400 <==> outcome == PronetClient.Returned(false)
    ensures r.status == 500 <==> outcome == PronetClient.Raised
    ensures r.success <==> r.status == 200
  {
    match outcome
    case Returned(true) => TestReply(200, true, "Pronet bağlantısı başarılı!")
    case Returned(false) => TestReply(400, false, "Bağlantı başarısız! Bilgileri kontrol edin.")
    case Raised => TestReply(500, false, "Sunucuda bir hata oluştu.")
  }

  /**
   * With complete settings the endpoint answers 500 exactly when the test
   * window falls before 0001-01-01; missing settings always give 400.
   */
  lemma TestEndpointStatus(lookup: string -> Option<string>, now1: DateTime, now2: DateTime,
                           transport: PronetClient.Transport)
    ensures var r := TestPronetReply(PronetClient.TestConnection(lookup, now1, now2, transport));
      && (PronetClient.ReadCredentials(lookup).None? ==> r.status == 400)
      && (r.status == 500 <==>
            PronetClient.ReadCredentials(lookup).Some? && (AddHours(now1, -2).None? || AddHours(now2, -1).None?))
  {
    PronetClient.TestConnectionSpec(lookup, now1, now2, transport);
  }
}
