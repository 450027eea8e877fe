/**
 * wwwroot/app.js: the logic of the admin page. The MAC address input is
 * normalised while typing, stored times are shown as HH:MM, the location
 * hash selects a section, the device form is turned into a POST or PUT
 * request, the settings form is filled from and saved to the settings
 * endpoints, and the dashboard counts the stores it lists.
 */
module AdminUi {
  import opened Wrappers
  import opened Decimal
  import opened Calendar
  import opened DataModels
  import opened Settings
  import opened AdminApi
  import PronetClient
  import NebimLegacyClient
  import Worker

  // ---------------------------------------------------------------------
  // MAC address input
  // ---------------------------------------------------------------------

  predicate IsHexDigit(c: char) {
    '0' <= c <= '9' || 'A' <= c <= 'F' || 'a' <= c <= 'f'
  }

  predicate IsUpperHexDigit(c: char) {
    '0' <= c <= '9' || 'A' <= c <= 'F'
  }

  predicate AllHex(s: string) {
    forall i :: 0 <= i < |s| ==> IsHexDigit(s[i])
  }

  /** `value.replace(/[^0-9A-Fa-f]/g, '')`. */
  function KeepHex(s: string): (t: string)
    ensures |t| <= |s| && AllHex(t)
  {
    if s == [] then []
    else (if IsHexDigit(s[0]) then [s[0]] else []) + KeepHex(s[1..])
  }

  /** `if (value.length > 12) value = value.substr(0, 12)`. */
  function Take12(s: string): (t: string)
    ensures |t| <= 12
  {
    if |s| > 12 then s[..12] else s
  }

  /** `value.replace(/(.{2})/g, '$1:')`: a colon after every complete pair, left to right. */
  function PairColons(s: string): string {
    if |s| >= 2 then s[..2] + ":" + PairColons(s[2..]) else s
  }

  /** `if (value.endsWith(':')) value = value.slice(0, -1)`. */
  function DropTrailingColon(s: string): string {
    if s != [] && s[|s| - 1] == ':' then s[..|s| - 1] else s
  }

  /** `toUpperCase()`, on strings of hex digits and colons, where only `a`..`f` change. */
  function ToUpper(s: string): (t: string)
    ensures |t| == |s|
  {
    seq(|s|, i requires 0 <= i < |s| => UpperAscii(s[i]))
  }

  /** The input listener on the MAC address field. */
  function NormalizeMac(input: string): string {
    ToUpper(DropTrailingColon(PairColons(Take12(KeepHex(input)))))
  }

  /** Digits in pairs separated by colons: the intended MAC address layout. */
  function Grouped(h: string): string {
    if |h| <= 2 then h else h[..2] + ":" + Grouped(h[2..])
  }

  /** Pairing and then dropping a final colon groups a string of hex digits. */
  lemma {:induction false} PairThenDropIsGrouped(h: string)
    requires AllHex(h)
    ensures DropTrailingColon(PairColons(h)) == Grouped(h)
  {
    if |h| > 2 {
      var tail := PairColons(h[2..]);
      PairThenDropIsGrouped(h[2..]);
      assert |tail| >= 1;
      if tail[|tail| - 1] == ':' {
        assert (h[..2] + ":" + tail)[..|h[..2] + ":" + tail| - 1] == h[..2] + ":" + tail[..|tail| - 1];
      }
    }
  }

  /** Colons sit exactly at every third position, every other character is a digit of `h`, and none ends it. */
  lemma {:induction false} GroupedShape(h: string)
    requires AllHex(h)
    ensures forall i :: 0 <= i < |Grouped(h)| ==> (Grouped(h)[i] == ':' <==> i % 3 == 2)
    ensures forall i :: 0 <= i < |Grouped(h)| ==> Grouped(h)[i] == ':' || Grouped(h)[i] in h
    ensures Grouped(h) == [] || Grouped(h)[|Grouped(h)| - 1] != ':'
  {
    if |h| > 2 {
      GroupedShape(h[2..]);
      var g := Grouped(h);
      assert g == h[..2] + ":" + Grouped(h[2..]);
      forall i | 3 <= i < |g| ensures g[i] == Grouped(h[2..])[i - 3] && (i - 3) % 3 == i % 3 {
      }
      assert forall c :: c in h[2..] ==> c in h;
    }
  }

  /** Removing the non-digits of a grouped string gives back the digits. */
  lemma {:induction false} KeepHexOfGrouped(h: string)
    requires AllHex(h)
    ensures KeepHex(Grouped(h)) == h
  {
    if |h| > 2 {
      KeepHexOfGrouped(h[2..]);
      KeepHexAppend(h[..2] + ":", Grouped(h[2..]));
      KeepHexAppend(h[..2], ":");
      KeepHexAppend([h[0]], [h[1]]);
      assert h[..2] == [h[0]] + [h[1]];
      assert h == h[..2] + h[2..];
    } else if |h| == 2 {
      KeepHexAppend([h[0]], [h[1]]);
      assert h == [h[0]] + [h[1]];
    }
  }

  lemma {:induction false} KeepHexAppend(a: string, b: string)
    ensures KeepHex(a + b) == KeepHex(a) + KeepHex(b)
  {
    if a != [] {
      assert (a + b)[0] == a[0] && (a + b)[1..] == a[1..] + b;
      KeepHexAppend(a[1..], b);
      var head: string := if IsHexDigit(a[0]) then [a[0]] else [];
      assert KeepHex(a + b) == head + (KeepHex(a[1..]) + KeepHex(b));
      assert KeepHex(a) == head + KeepHex(a[1..]);
    } else {
      assert a + b == b;
    }
  }

  /** Upper-casing commutes with grouping. */
  lemma {:induction false} UpperOfGrouped(h: string)
    ensures ToUpper(Grouped(h)) == Grouped(ToUpper(h))
  {
    if |h| > 2 {
      UpperOfGrouped(h[2..]);
      assert ToUpper(h)[..2] == ToUpper(h[..2]) && ToUpper(h)[2..] == ToUpper(h[2..]);
      assert ToUpper(h[..2] + ":" + Grouped(h[2..])) == ToUpper(h[..2]) + ":" + ToUpper(Grouped(h[2..]));
    }
  }

  /**
   * The normalised address is the first twelve hex digits of the input,
   * upper-cased and grouped in pairs: colons exactly at every third
   * position, upper-case hex digits everywhere else, no colon at the end.
   */
  lemma NormalizeMacSpec(input: string)
    ensures var digits := ToUpper(Take12(KeepHex(input)));
      var m := NormalizeMac(input);
      && m == Grouped(digits)
      && KeepHex(m) == digits && |digits| <= 12
      && (forall i :: 0 <= i < |m| ==> (m[i] == ':' <==> i % 3 == 2))
      && (forall i :: 0 <= i < |m| ==> m[i] == ':' || IsUpperHexDigit(m[i]))
      && (m == [] || m[|m| - 1] != ':')
  {
    var t := Take12(KeepHex(input));
    var digits := ToUpper(t);
    assert AllHex(t);
    assert forall i :: 0 <= i < |digits| ==> IsUpperHexDigit(digits[i]);
    PairThenDropIsGrouped(t);
    UpperOfGrouped(t);
    GroupedShape(digits);
    KeepHexOfGrouped(digits);
  }

  /** Normalising an address already normalised changes nothing, since colons are stripped first. */
  lemma NormalizeMacIdempotent(input: string)
    ensures NormalizeMac(NormalizeMac(input)) == NormalizeMac(input)
  {
    var digits := ToUpper(Take12(KeepHex(input)));
    NormalizeMacSpec(input);
    NormalizeMacSpec(NormalizeMac(input));
    assert ToUpper(digits) == digits;
  }

  // ---------------------------------------------------------------------
  // Time display
  // ---------------------------------------------------------------------

  /** Both `formatTime` helpers: a missing or empty time gives the fallback, a longer one its first five characters. */
  function FormatTime(time: Option<string>, fallback: string): string {
    if time.None? || time.value == "" then fallback
    else if |time.value| > 5 then time.value[..5]
    else time.value
  }

  /** The device list's `formatTime`. */
  function FormatTimeForList(time: Option<string>): string {
    FormatTime(time, "--:--")
  }

  /** The edit form's `formatTimeForInput`. */
  function FormatTimeForInput(time: Option<string>): string {
    FormatTime(time, "09:00")
  }

  /** A time is shown as its first five characters, or whole when it has at most five; nothing shows the fallback. */
  lemma FormatTimeSpec(time: Option<string>, fallback: string)
    ensures time.None? || time.value == "" ==> FormatTime(time, fallback) == fallback
    ensures time.Some? && time.value != "" ==>
      var r := FormatTime(time, fallback);
      |r| == (if |time.value| > 5 then 5 else |time.value|) && r <= time.value
  {
  }

  /** The hour and minute of a `TimeOnly`, as `HH:mm`. */
  function HourMinute(t: TimeOnly): (s: string)
    ensures |s| == 5
  {
    var seconds := t / TicksPerSecond;
    Digits(seconds / 3600, 2) + ":" + Digits(seconds / 60 % 60, 2)
  }

  /**
   * `TimeOnly` as the JSON serialiser writes it, in the constant format of
   * `TimeSpan`: `HH:mm:ss`, with seven fraction digits when there is a fraction.
   */
  function TimeOnlyText(t: TimeOnly): string {
    var fraction := t % TicksPerSecond;
    HourMinute(t) + ":" + Digits(t / TicksPerSecond % 60, 2) +
      (if fraction == 0 then "" else "." + Digits(fraction, 7))
  }

  /** A stored opening or closing time is shown, in the list and in the edit form, as its hour and minute. */
  lemma StoredTimeShowsHourAndMinute(t: TimeOnly)
    ensures FormatTimeForList(Some(TimeOnlyText(t))) == HourMinute(t)
    ensures FormatTimeForInput(Some(TimeOnlyText(t))) == HourMinute(t)
  {
    var hm := HourMinute(t);
    var rest := ":" + Digits(t / TicksPerSecond % 60, 2) +
      (if t % TicksPerSecond == 0 then "" else "." + Digits(t % TicksPerSecond, 7));
    assert TimeOnlyText(t) == hm + rest;
    assert (hm + rest)[..5] == hm;
  }

  // ---------------------------------------------------------------------
  // Hash routing
  // ---------------------------------------------------------------------

  datatype Section = Dashboard | DeviceManagement | SettingsPage

  /** `fullHash.replace('#', '')`: a string pattern replaces its first occurrence only. */
  function RemoveFirstHash(s: string): string {
    if s == [] then []
    else if s[0] == '#' then s[1..]
    else [s[0]] + RemoveFirstHash(s[1..])
  }

  /** Without a `#` the hash is kept. */
  lemma {:induction false} RemoveFirstHashWithout(s: string)
    requires forall j :: 0 <= j < |s| ==> s[j] != '#'
    ensures RemoveFirstHash(s) == s
  {
    if s != [] {
      RemoveFirstHashWithout(s[1..]);
    }
  }

  /** Exactly the first `#` is removed. */
  lemma {:induction false} RemoveFirstHashAt(s: string, i: nat)
    requires i < |s| && s[i] == '#' && forall j :: 0 <= j < i ==> s[j] != '#'
    ensures RemoveFirstHash(s) == s[..i] + s[i + 1..]
  {
    if i > 0 {
      var t := s[1..];
      RemoveFirstHashAt(t, i - 1);
      assert s[..i] == [s[0]] + t[..i - 1];
      assert s[i + 1..] == t[i..];
    }
  }

  /** `handleHashChange`: the section shown for a location hash. */
  function Route(fullHash: string): Section {
    var hash := RemoveFirstHash(fullHash);
    var name := if hash == "" then "dashboard" else hash;
    if name == "devices" then DeviceManagement
    else if name == "settings" then SettingsPage
    else Dashboard
  }

  /** The devices and settings sections are shown for exactly their names after the first `#`; anything else shows the dashboard. */
  lemma RouteSpec(fullHash: string)
    ensures Route(fullHash) == DeviceManagement <==> RemoveFirstHash(fullHash) == "devices"
    ensures Route(fullHash) == SettingsPage <==> RemoveFirstHash(fullHash) == "settings"
    ensures Route("") == Dashboard && Route("#") == Dashboard && Route("#dashboard") == Dashboard
    ensures Route("#devices") == DeviceManagement && Route("#settings") == SettingsPage
  {
    assert RemoveFirstHash("#devices") == "devices";
    assert RemoveFirstHash("#settings") == "settings";
  }

  // ---------------------------------------------------------------------
  // Device form
  // ---------------------------------------------------------------------

  /** The device modal's inputs, as the submit handler collects them. */
  datatype DeviceForm = DeviceForm(active: bool, nebimOfficeCode: string, nebimStoreCode: string,
                                   pronetStoreCode: string, deviceMacAddress: string,
                                   openingTime: string, closingTime: string)

  /** The body `saveDevice` sends. */
  datatype DevicePayload = DevicePayload(isActive: bool, nebimOfficeCode: string, nebimStoreCode: string,
                                         pronetStoreCode: Option<string>, macAddress: Option<string>,
                                         openingTime: string, closingTime: string)

  datatype HttpMethod = Post | Put

  datatype DeviceRequest = DeviceRequest(verb: HttpMethod, url: string, body: DevicePayload)

  /** `value || null` on a string. */
  function OrNull(s: string): Option<string> {
    if s == "" then None else Some(s)
  }

  /** `saveDevice`'s mapping of the form to the API model. */
  function Payload(form: DeviceForm): DevicePayload {
    DevicePayload(form.active, form.nebimOfficeCode, form.nebimStoreCode, OrNull(form.pronetStoreCode),
                  OrNull(form.deviceMacAddress), form.openingTime, form.closingTime)
  }

  /** `saveDevice`: a PUT to the device's URL when `currentEditingDevice` is truthy, else a POST. */
  function SaveRequest(editing: Option<int>, form: DeviceForm): DeviceRequest {
    if editing.Some? && editing.value != 0 then DeviceRequest(Put, "/api/devices/" + IntText(editing.value), Payload(form))
    else DeviceRequest(Post, "/api/devices", Payload(form))
  }

  /** The form `openAddDeviceModal` shows (its inputs reset to empty). */
  const NewDeviceForm: DeviceForm := DeviceForm(true, "", "", "", "", "09:00", "22:00")

  /** The form `editDevice` fills from a device. */
  function EditForm(device: Device): DeviceForm {
    DeviceForm(device.isActive, device.nebimOfficeCode, device.nebimStoreCode,
               device.pronetStoreCode.GetOr(""), device.macAddress.GetOr(""),
               FormatTimeForInput(Some(TimeOnlyText(device.openingTime))),
               FormatTimeForInput(Some(TimeOnlyText(device.closingTime))))
  }

  /** An empty optional field is sent as null, a filled one as typed; the other fields are sent as typed. */
  lemma PayloadSpec(form: DeviceForm)
    ensures var p := Payload(form);
      && (p.pronetStoreCode.None? <==> form.pronetStoreCode == "")
      && (p.macAddress.None? <==> form.deviceMacAddress == "")
      && p.pronetStoreCode.GetOr("") == form.pronetStoreCode
      && p.macAddress.GetOr("") == form.deviceMacAddress
      && p.isActive == form.active && p.nebimOfficeCode == form.nebimOfficeCode
      && p.nebimStoreCode == form.nebimStoreCode
      && p.openingTime == form.openingTime && p.closingTime == form.closingTime
  {
  }

  /**
   * Saving an edited device unchanged PUTs it to its own URL with its own
   * values back: optional codes as stored (an empty one as null), times as HH:MM.
   */
  lemma EditThenSaveUpdates(device: Device)
    requires device.id != 0
    ensures var r := SaveRequest(Some(device.id), EditForm(device));
      && r.verb == Put && r.url == "/api/devices/" + IntText(device.id)
      && r.body.isActive == device.isActive
      && r.body.nebimOfficeCode == device.nebimOfficeCode && r.body.nebimStoreCode == device.nebimStoreCode
      && (device.pronetStoreCode != Some("") ==> r.body.pronetStoreCode == device.pronetStoreCode)
      && (device.macAddress != Some("") ==> r.body.macAddress == device.macAddress)
      && r.body.openingTime == HourMinute(device.openingTime)
      && r.body.closingTime == HourMinute(device.closingTime)
  {
    StoredTimeShowsHourAndMinute(device.openingTime);
    StoredTimeShowsHourAndMinute(device.closingTime);
  }

  /** A form opened for a new device is POSTed to the collection, active, open 09:00 to 22:00, with no optional codes. */
  lemma AddThenSaveCreates()
    ensures SaveRequest(None, NewDeviceForm) ==
      DeviceRequest(Post, "/api/devices", DevicePayload(true, "", "", None, None, "09:00", "22:00"))
  {
  }

  // ---------------------------------------------------------------------
  // Settings form
  // ---------------------------------------------------------------------

  /** The settings page's inputs. */
  datatype SettingsForm = SettingsForm(pronetApi: string, pronetUserName: string, pronetPassword: string,
                                       pronetMode: string, nebimApi: string, nebimUserName: string,
                                       nebimPassword: string, syncFrequency: string)

  const BlankSettingsForm: SettingsForm := SettingsForm("", "", "", "", "", "", "", "")
  const PasswordMask: string := "*****"
  const PronetModeKey: string := "Credentials:Pronet:PronetMode"

  /** `if (settings[key])`: the key is present with a non-empty value. */
  predicate Truthy(view: map<string, string>, key: string) {
    key in view && view[key] != ""
  }

  /** An input after `loadSettings`: the setting when truthy, otherwise what the input held. */
  function Shown(view: map<string, string>, key: string, current: string): string {
    if Truthy(view, key) then view[key] else current
  }

  /** `loadSettings`; `None` is a failed GET, which only shows a notification. */
  function LoadSettingsForm(view: Option<map<string, string>>, form: SettingsForm): SettingsForm {
    match view
    case None => form
    case Some(v) =>
      SettingsForm(
        Shown(v, PronetClient.ApiUrlKey, form.pronetApi),
        Shown(v, PronetClient.UserNameKey, form.pronetUserName),
        if Truthy(v, PronetClient.PasswordKey) then PasswordMask else form.pronetPassword,
        Shown(v, PronetModeKey, form.pronetMode),
        Shown(v, NebimLegacyClient.ApiUrlKey, form.nebimApi),
        Shown(v, NebimLegacyClient.UserNameKey, form.nebimUserName),
        Shown(v, NebimLegacyClient.PasswordKey, form.nebimPassword),
        Shown(v, Worker.FrequencyKey, form.syncFrequency))
  }

  /** `saveSettings`: every input posted verbatim under its key. */
  function SettingsPayload(form: SettingsForm): seq<(string, Option<string>)> {
    [(PronetClient.ApiUrlKey, Some(form.pronetApi)),
     (PronetClient.UserNameKey, Some(form.pronetUserName)),
     (PronetClient.PasswordKey, Some(form.pronetPassword)),
     (PronetModeKey, Some(form.pronetMode)),
     (NebimLegacyClient.ApiUrlKey, Some(form.nebimApi)),
     (NebimLegacyClient.UserNameKey, Some(form.nebimUserName)),
     (NebimLegacyClient.PasswordKey, Some(form.nebimPassword)),
     (Worker.FrequencyKey, Some(form.syncFrequency))]
  }

  /** The eight keys of the settings page are different, so the request body is a dictionary. */
  lemma SettingsPayloadKeysDistinct(form: SettingsForm)
    ensures DistinctKeys(SettingsPayload(form))
  {
  }

  /**
   * As written, saving the page right after it loaded stores the mask as
   * the Pronet password: `loadSettings` puts "*****" in the field and
   * `saveSettings` posts it verbatim, so the sync cycle reads "*****"
   * where it read the stored password before.
   */
  lemma SavedFormStoresPronetMask(rows: seq<SettingRow>, form: SettingsForm, protect: string -> string,
                                  unprotect: string -> Option<string>, config: string -> Option<string>)
    requires UniqueKeys(rows)
    requires forall x :: unprotect(protect(x)) == Some(x) && protect(x) != ""
    requires FirstWithKey(rows, PronetClient.PasswordKey).Some?
    requires !IsNullOrEmpty(FirstWithKey(rows, PronetClient.PasswordKey).value.value)
    ensures var stored := FirstWithKey(rows, PronetClient.PasswordKey).value.value.value;
      var after := UpsertAll(rows, SettingsPayload(LoadSettingsForm(SettingsView(rows), form)), protect);
      && GetSetting(rows, config, unprotect, PronetClient.PasswordKey) == unprotect(stored)
      && GetSetting(after, config, unprotect, PronetClient.PasswordKey) == Some(PasswordMask)
  {
    PronetPasswordKeyIsProtected();
    StoredPasswordIsRead(rows, config, unprotect, PronetClient.PasswordKey);
    SavedPronetMaskIsRead(rows, form, protect, unprotect, config);
  }

  /** A stored non-empty password is read unprotected. */
  lemma StoredPasswordIsRead(rows: seq<SettingRow>, config: string -> Option<string>,
                             unprotect: string -> Option<string>, key: string)
    requires IsPasswordKey(key) && FirstWithKey(rows, key).Some?
    requires !IsNullOrEmpty(FirstWithKey(rows, key).value.value)
    ensures GetSetting(rows, config, unprotect, key) == unprotect(FirstWithKey(rows, key).value.value.value)
  {
  }

  /** With a Pronet password stored, an unedited save leaves "*****" to be read. */
  lemma SavedPronetMaskIsRead(rows: seq<SettingRow>, form: SettingsForm, protect: string -> string,
                              unprotect: string -> Option<string>, config: string -> Option<string>)
    requires UniqueKeys(rows)
    requires forall x :: unprotect(protect(x)) == Some(x) && protect(x) != ""
    requires FirstWithKey(rows, PronetClient.PasswordKey).Some?
    requires !IsNullOrEmpty(FirstWithKey(rows, PronetClient.PasswordKey).value.value)
    ensures GetSetting(UpsertAll(rows, SettingsPayload(LoadSettingsForm(SettingsView(rows), form)), protect),
                       config, unprotect, PronetClient.PasswordKey) == Some(PasswordMask)
  {
    LoadedPronetPasswordIsMask(rows, form);
    MaskedFieldIsSaved(rows, LoadSettingsForm(SettingsView(rows), form), protect, unprotect, config);
  }

  /** A Pronet password field holding "*****" is saved, and then read, as "*****". */
  lemma MaskedFieldIsSaved(rows: seq<SettingRow>, loaded: SettingsForm, protect: string -> string,
                           unprotect: string -> Option<string>, config: string -> Option<string>)
    requires forall x :: unprotect(protect(x)) == Some(x) && protect(x) != ""
    requires loaded.pronetPassword == PasswordMask
    ensures GetSetting(UpsertAll(rows, SettingsPayload(loaded), protect), config, unprotect, PronetClient.PasswordKey)
      == Some(PasswordMask)
  {
    var entries := SettingsPayload(loaded);
    assert entries[2] == (PronetClient.PasswordKey, Some(PasswordMask));
    SettingsPayloadKeysDistinct(loaded);
    SavedSettingIsRead(rows, entries, protect, unprotect, config, 2);
  }

  /** With a Pronet password stored, `loadSettings` puts the mask in its field. */
  lemma LoadedPronetPasswordIsMask(rows: seq<SettingRow>, form: SettingsForm)
    requires UniqueKeys(rows)
    requires FirstWithKey(rows, PronetClient.PasswordKey).Some?
    requires !IsNullOrEmpty(FirstWithKey(rows, PronetClient.PasswordKey).value.value)
    ensures LoadSettingsForm(SettingsView(rows), form).pronetPassword == PasswordMask
  {
    ViewAgreesWithRead(rows, PronetClient.PasswordKey);
  }

  /** The input that shows it: the stored password "secret" reads as "*****" after an unedited save. */
  lemma SavedFormStoresPronetMaskExample(form: SettingsForm, protect: string -> string,
                                         unprotect: string -> Option<string>, config: string -> Option<string>)
    requires forall x :: unprotect(protect(x)) == Some(x) && protect(x) != ""
    ensures var rows := [SettingRow(PronetClient.PasswordKey, Some(protect("secret")))];
      var after := UpsertAll(rows, SettingsPayload(LoadSettingsForm(SettingsView(rows), form)), protect);
      && GetSetting(rows, config, unprotect, PronetClient.PasswordKey) == Some("secret")
      && GetSetting(after, config, unprotect, PronetClient.PasswordKey) == Some("*****")
  {
    var rows := [SettingRow(PronetClient.PasswordKey, Some(protect("secret")))];
    assert FirstWithKey(rows, PronetClient.PasswordKey) == Some(rows[0]);
    SavedFormStoresPronetMask(rows, form, protect, unprotect, config);
  }

  /**
   * As written, the Nebim password field is filled with the stored,
   * protected value the GET endpoint returns; saving it protects it again,
   * so the sync cycle reads the protected text where it read the password.
   */
  lemma SavedFormStoresNebimCiphertext(rows: seq<SettingRow>, form: SettingsForm, protect: string -> string,
                                       unprotect: string -> Option<string>, config: string -> Option<string>)
    requires UniqueKeys(rows)
    requires forall x :: unprotect(protect(x)) == Some(x) && protect(x) != ""
    requires FirstWithKey(rows, NebimLegacyClient.PasswordKey).Some?
    requires !IsNullOrEmpty(FirstWithKey(rows, NebimLegacyClient.PasswordKey).value.value)
    ensures var stored := FirstWithKey(rows, NebimLegacyClient.PasswordKey).value.value.value;
      var after := UpsertAll(rows, SettingsPayload(LoadSettingsForm(SettingsView(rows), form)), protect);
      && GetSetting(rows, config, unprotect, NebimLegacyClient.PasswordKey) == unprotect(stored)
      && GetSetting(after, config, unprotect, NebimLegacyClient.PasswordKey) == Some(stored)
  {
    ViewAgreesWithRead(rows, NebimLegacyClient.PasswordKey);
    NebimPasswordKeyIsProtected();
    var loaded := LoadSettingsForm(SettingsView(rows), form);
    SettingsPayloadKeysDistinct(loaded);
    SavedSettingIsRead(rows, SettingsPayload(loaded), protect, unprotect, config, 6);
  }

  /** The input that shows it: the stored password "secret" reads as its protected text after an unedited save. */
  lemma SavedFormStoresNebimCiphertextExample(form: SettingsForm, protect: string -> string,
                                              unprotect: string -> Option<string>, config: string -> Option<string>)
    requires forall x :: unprotect(protect(x)) == Some(x) && protect(x) != ""
    ensures var rows := [SettingRow(NebimLegacyClient.PasswordKey, Some(protect("secret")))];
      var after := UpsertAll(rows, SettingsPayload(LoadSettingsForm(SettingsView(rows), form)), protect);
      && GetSetting(rows, config, unprotect, NebimLegacyClient.PasswordKey) == Some("secret")
      && GetSetting(after, config, unprotect, NebimLegacyClient.PasswordKey) == Some(protect("secret"))
  {
    var rows := [SettingRow(NebimLegacyClient.PasswordKey, Some(protect("secret")))];
    assert FirstWithKey(rows, NebimLegacyClient.PasswordKey) == Some(rows[0]);
    SavedFormStoresNebimCiphertext(rows, form, protect, unprotect, config);
  }

  /** `loadSettings` as intended: both password fields show the mask when a password is stored. */
  function LoadSettingsFormMasked(view: Option<map<string, string>>, form: SettingsForm): SettingsForm {
    var loaded := LoadSettingsForm(view, form);
    match view
    case None => loaded
    case Some(v) =>
      loaded.(nebimPassword := if Truthy(v, NebimLegacyClient.PasswordKey) then PasswordMask else form.nebimPassword)
  }

  /** A password entry whose field still shows the mask is left out of the request. */
  function UnlessMasked(key: string, value: string): seq<(string, Option<string>)> {
    if value == PasswordMask then [] else [(key, Some(value))]
  }

  /** `saveSettings` as intended: the page's inputs, without the password fields left at the mask. */
  function SettingsPayloadKeepingPasswords(form: SettingsForm): seq<(string, Option<string>)> {
    [(PronetClient.ApiUrlKey, Some(form.pronetApi)),
     (PronetClient.UserNameKey, Some(form.pronetUserName))] +
    UnlessMasked(PronetClient.PasswordKey, form.pronetPassword) +
    [(PronetModeKey, Some(form.pronetMode)),
     (NebimLegacyClient.ApiUrlKey, Some(form.nebimApi)),
     (NebimLegacyClient.UserNameKey, Some(form.nebimUserName))] +
    UnlessMasked(NebimLegacyClient.PasswordKey, form.nebimPassword) +
    [(Worker.FrequencyKey, Some(form.syncFrequency))]
  }

  /** The intended request body has each key at most once. */
  lemma KeepingPasswordsKeysDistinct(form: SettingsForm)
    ensures DistinctKeys(SettingsPayloadKeepingPasswords(form))
  {
  }

  /**
   * A key left out of the request keeps its reading; so does a key posted
   * empty whose row was missing or empty, as both read the configuration.
   */
  lemma MaskedOrBlankIsKept(rows: seq<SettingRow>, entries: seq<(string, Option<string>)>, protect: string -> string,
                            unprotect: string -> Option<string>, config: string -> Option<string>, key: string)
    requires DistinctKeys(entries)
    requires (forall e :: e in entries ==> e.0 != key) ||
      ((key, Some("")) in entries &&
       (FirstWithKey(rows, key).None? || IsNullOrEmpty(FirstWithKey(rows, key).value.value)))
    ensures GetSetting(UpsertAll(rows, entries, protect), config, unprotect, key) == GetSetting(rows, config, unprotect, key)
  {
    if forall e :: e in entries ==> e.0 != key {
      assert forall i :: 0 <= i < |entries| ==> entries[i] in entries;
      UnsavedSettingIsUnchanged(rows, entries, protect, unprotect, config, key);
    } else {
      var n :| 0 <= n < |entries| && entries[n] == (key, Some(""));
      UpsertAllReadsBack(rows, entries, protect, n);
    }
  }

  /** The intended request body leaves a masked password field out and posts an empty one. */
  lemma KeepingPasswordsEntries(form: SettingsForm)
    ensures var entries := SettingsPayloadKeepingPasswords(form);
      && (form.pronetPassword == PasswordMask ==> forall e :: e in entries ==> e.0 != PronetClient.PasswordKey)
      && (form.pronetPassword == "" ==> (PronetClient.PasswordKey, Some("")) in entries)
      && (form.nebimPassword == PasswordMask ==> forall e :: e in entries ==> e.0 != NebimLegacyClient.PasswordKey)
      && (form.nebimPassword == "" ==> (NebimLegacyClient.PasswordKey, Some("")) in entries)
  {
  }

  /** After the intended load, a password field shows the mask when a password is stored, else what it held. */
  lemma MaskedLoadSpec(rows: seq<SettingRow>, form: SettingsForm, key: string)
    requires UniqueKeys(rows)
    requires key == PronetClient.PasswordKey || key == NebimLegacyClient.PasswordKey
    ensures var loaded := LoadSettingsFormMasked(SettingsView(rows), form);
      var field := if key == PronetClient.PasswordKey then loaded.pronetPassword else loaded.nebimPassword;
      var before := if key == PronetClient.PasswordKey then form.pronetPassword else form.nebimPassword;
      var row := FirstWithKey(rows, key);
      if row.Some? && !IsNullOrEmpty(row.value.value) then field == PasswordMask else field == before
  {
    ViewAgreesWithRead(rows, key);
  }

  /**
   * With the intended page, saving right after loading, from a page whose
   * password fields were blank, leaves both passwords reading as before.
   */
  lemma MaskedSaveKeepsPasswords(rows: seq<SettingRow>, form: SettingsForm, protect: string -> string,
                                 unprotect: string -> Option<string>, config: string -> Option<string>)
    requires UniqueKeys(rows)
    requires form.pronetPassword == "" || form.pronetPassword == PasswordMask
    requires form.nebimPassword == "" || form.nebimPassword == PasswordMask
    ensures var after := UpsertAll(rows, SettingsPayloadKeepingPasswords(LoadSettingsFormMasked(SettingsView(rows), form)), protect);
      && GetSetting(after, config, unprotect, PronetClient.PasswordKey) == GetSetting(rows, config, unprotect, PronetClient.PasswordKey)
      && GetSetting(after, config, unprotect, NebimLegacyClient.PasswordKey) == GetSetting(rows, config, unprotect, NebimLegacyClient.PasswordKey)
  {
    var loaded := LoadSettingsFormMasked(SettingsView(rows), form);
    var entries := SettingsPayloadKeepingPasswords(loaded);
    KeepingPasswordsKeysDistinct(loaded);
    KeepingPasswordsEntries(loaded);
    MaskedLoadSpec(rows, form, PronetClient.PasswordKey);
    MaskedLoadSpec(rows, form, NebimLegacyClient.PasswordKey);
    MaskedOrBlankIsKept(rows, entries, protect, unprotect, config, PronetClient.PasswordKey);
    MaskedOrBlankIsKept(rows, entries, protect, unprotect, config, NebimLegacyClient.PasswordKey);
  }

  // ---------------------------------------------------------------------
  // Dashboard statistics
  // ---------------------------------------------------------------------

  /** A sequence without repeats has as many elements as its set. */
  lemma {:induction false} DistinctCardinality(s: seq<string>)
    requires forall i, j :: 0 <= i < j < |s| ==> s[i] != s[j]
    ensures |set x | x in s| == |s|
  {
    if s != [] {
      var init := s[..|s| - 1];
      DistinctCardinality(init);
      assert (set x | x in s) == (set x | x in init) + {s[|s| - 1]};
    }
  }

  /**
   * `[...new Set(updateLogs.map(log => log.DeviceStoreCode))].length`: a
   * `Set` keeps first occurrences in order, so its spread is `StoreCodes`,
   * and the count is the number of distinct store codes.
   */
  lemma StoreCountIsDistinctCodes(logs: seq<SyncHistory>)
    ensures |StoreCodes(logs)| == |set h | h in logs :: h.deviceStoreCode|
  {
    var codes := StoreCodes(logs);
    DistinctCardinality(codes);
    var shown := set x | x in codes;
    var distinct := set h | h in logs :: h.deviceStoreCode;
    forall c ensures c in shown <==> c in distinct {
      if c in codes {
        var k :| 0 <= k < |logs| && logs[k].deviceStoreCode == c;
        assert logs[k] in logs;
      }
      if c in distinct {
        var h :| h in logs && h.deviceStoreCode == c;
        var k :| 0 <= k < |logs| && logs[k] == h;
      }
    }
    assert shown == distinct;
  }

  /** Logs whose store codes are all different have one code each. */
  lemma {:induction false} StoreCodesOfDistinct(logs: seq<SyncHistory>)
    requires forall i, j :: 0 <= i < j < |logs| ==> logs[i].deviceStoreCode != logs[j].deviceStoreCode
    ensures |StoreCodes(logs)| == |logs|
  {
    if logs != [] {
      var init := logs[..|logs| - 1];
      StoreCodesOfDistinct(init);
      assert forall k :: 0 <= k < |init| ==> init[k] == logs[k];
    }
  }

  /** Over the dashboard's rows, the count is the number of rows: one per store with any history. */
  lemma DashboardStoreCount(histories: seq<SyncHistory>)
    ensures |StoreCodes(LatestPerStore(histories))| == |LatestPerStore(histories)|
    ensures |LatestPerStore(histories)| == |set h | h in histories :: h.deviceStoreCode|
  {
    LatestPerStoreRows(histories);
    StoreCodesOfDistinct(LatestPerStore(histories));
    StoreCountIsDistinctCodes(histories);
  }

  // ---------------------------------------------------------------------
  // The page as written: JSON casing and the missing dashboard loader
  // ---------------------------------------------------------------------

  /** The name ASP.NET writes a device's id under: camelCase, the web default of System.Text.Json. */
  const DeviceIdJsonName: string := "id"

  /** A property of a device as the page receives it: its id under its JSON name, `undefined` (`None`) otherwise. */
  function IdProperty(d: Device, name: string): Option<int> {
    if name == DeviceIdJsonName then Some(d.id) else None
  }

  /** `devices.find(d => d[name] === deviceId)`, as the position of the first match. */
  function FindByProperty(devices: seq<Device>, name: string, deviceId: int): (r: Option<nat>)
    ensures r.Some? ==> r.value < |devices| && IdProperty(devices[r.value], name) == Some(deviceId)
  {
    if devices == [] then None
    else if IdProperty(devices[0], name) == Some(deviceId) then Some(0)
    else
      match FindByProperty(devices[1..], name, deviceId)
      case None => None
      case Some(i) => Some(i + 1)
  }

  /** Looking the id up under its JSON name finds what `FindAsync` finds. */
  lemma {:induction false} CamelCaseLookup(devices: seq<Device>, deviceId: int)
    ensures FindByProperty(devices, DeviceIdJsonName, deviceId) == FindDevice(devices, deviceId)
  {
    if devices != [] {
      CamelCaseLookup(devices[1..], deviceId);
    }
  }

  /** As written, `d.Id === deviceId` reads a property the list does not have, so no device is ever found. */
  lemma {:induction false} PascalCaseLookupNeverFinds(devices: seq<Device>, deviceId: int)
    ensures FindByProperty(devices, "Id", deviceId).None?
  {
    if devices != [] {
      PascalCaseLookupNeverFinds(devices[1..], deviceId);
    }
  }

  /** The input that shows it: a list holding device 1, where `editDevice(1)` finds nothing. */
  lemma PascalCaseLookupExample(device: Device)
    requires device.id == 1
    ensures FindDevice([device], 1) == Some(0)
    ensures FindByProperty([device], "Id", 1).None?
  {
    PascalCaseLookupNeverFinds([device], 1);
  }

  /**
   * The active-store counter as written. `loadDashboardStatus` is not
   * defined (its body at app.js:184-192 sits, unreachable, inside
   * `testNebimConnection`), so every call to it throws before any request
   * and `updateStats` never runs: the counter keeps the text it had.
   */
  function ActiveStoresTextAsWritten(initial: string, histories: seq<SyncHistory>): string {
    initial
  }

  /** The counter as intended: the number of stores among the dashboard rows. */
  function ActiveStoresTextIntended(histories: seq<SyncHistory>): string {
    IntText(|StoreCodes(LatestPerStore(histories))|)
  }

  /** As written, the counter shows the same text whatever the history holds. */
  lemma ActiveStoresIgnoreHistory(initial: string, histories: seq<SyncHistory>, other: seq<SyncHistory>)
    ensures ActiveStoresTextAsWritten(initial, histories) == ActiveStoresTextAsWritten(initial, other)
  {
  }

  /** The input that shows it: with one row of history, the counter should read "1" but keeps its initial "0". */
  lemma ActiveStoresExample(h: SyncHistory)
    ensures ActiveStoresTextIntended([h]) == "1"
    ensures ActiveStoresTextAsWritten("0", [h]) == "0"
  {
    DashboardStoreCount([h]);
    var codes := set x | x in [h] :: x.deviceStoreCode;
    assert codes == {h.deviceStoreCode};
  }

  // ---------------------------------------------------------------------
  // The page's state
  // ---------------------------------------------------------------------

  /** The module globals of app.js and the inputs of its two forms. */
  class AdminPage {
    var devices: seq<Device>
    var updateLogs: seq<SyncHistory>
    var currentEditingDevice: Option<int>
    var deviceForm: DeviceForm
    var settingsForm: SettingsForm

    /** The page as loaded; the forms hold the inputs' initial values. */
    constructor(deviceForm: DeviceForm, settingsForm: SettingsForm)
      ensures devices == [] && updateLogs == [] && currentEditingDevice == None
      ensures this.deviceForm == deviceForm && this.settingsForm == settingsForm
    {
      devices := [];
      updateLogs := [];
      currentEditingDevice := None;
      this.deviceForm := deviceForm;
      this.settingsForm := settingsForm;
    }

    /** `loadDevices` after a successful GET. */
    method LoadDevices(response: seq<Device>)
      modifies this`devices
      ensures devices == response
    {
      devices := response;
    }

    /** The dashboard load after a successful GET. */
    method LoadDashboardStatus(response: seq<SyncHistory>)
      modifies this`updateLogs
      ensures updateLogs == response
    {
      updateLogs := response;
    }

    /** `updateStats`' active-store count. */
    function ActiveStoreCount(): nat
      reads this
    {
      |StoreCodes(updateLogs)|
    }

    /** `openAddDeviceModal`. */
    method OpenAddDeviceModal()
      modifies this`currentEditingDevice, this`deviceForm
      ensures currentEditingDevice == None && deviceForm == NewDeviceForm
      ensures SaveRequest(currentEditingDevice, deviceForm).verb == Post
    {
      currentEditingDevice := None;
      deviceForm := NewDeviceForm;
    }

    /** `editDevice`: nothing happens for an id not in the list; otherwise the form is filled from that device. */
    method EditDevice(deviceId: int)
      modifies this`currentEditingDevice, this`deviceForm
      ensures FindDevice(devices, deviceId).None? ==>
        currentEditingDevice == old(currentEditingDevice) && deviceForm == old(deviceForm)
      ensures FindDevice(devices, deviceId).Some? ==>
        currentEditingDevice == Some(deviceId) && deviceForm == EditForm(devices[FindDevice(devices, deviceId).value])
    {
      var found := FindDevice(devices, deviceId);
      if found.None? {
        return;
      }
      var device := devices[found.value];
      currentEditingDevice := Some(deviceId);
      deviceForm := EditForm(device);
    }

    /** `editDevice` as written: the lookup by `Id` never matches, so the page stays as it was, for every id. */
    method EditDeviceAsWritten(deviceId: int)
      modifies this`currentEditingDevice, this`deviceForm
      ensures currentEditingDevice == old(currentEditingDevice) && deviceForm == old(deviceForm)
    {
      var found := FindByProperty(devices, "Id", deviceId);
      PascalCaseLookupNeverFinds(devices, deviceId);
      if found.None? {
        return;
      }
      assert false;
    }

    /** The input listener on the MAC address field. */
    method OnMacAddressInput()
      modifies this`deviceForm
      ensures deviceForm == old(deviceForm).(deviceMacAddress := NormalizeMac(old(deviceForm).deviceMacAddress))
    {
      deviceForm := deviceForm.(deviceMacAddress := NormalizeMac(deviceForm.deviceMacAddress));
    }

    /** The device form's submit handler: the request `saveDevice` sends. */
    method SaveDevice() returns (request: DeviceRequest)
      ensures request == SaveRequest(currentEditingDevice, deviceForm)
      ensures request.verb == Put <==> currentEditingDevice.Some? && currentEditingDevice.value != 0
      ensures request.body == Payload(deviceForm)
    {
      var device := Payload(deviceForm);
      if currentEditingDevice.Some? && currentEditingDevice.value != 0 {
        request := DeviceRequest(Put, "/api/devices/" + IntText(currentEditingDevice.value), device);
      } else {
        request := DeviceRequest(Post, "/api/devices", device);
      }
    }

    /** `loadSettings` with the GET's dictionary, `None` when the request failed. */
    method LoadSettings(view: Option<map<string, string>>)
      modifies this`settingsForm
      ensures settingsForm == LoadSettingsForm(view, old(settingsForm))
    {
      settingsForm := LoadSettingsForm(view, settingsForm);
    }

    /** `saveSettings`: the body it posts. */
    method SaveSettings() returns (entries: seq<(string, Option<string>)>)
      ensures entries == SettingsPayload(settingsForm)
      ensures DistinctKeys(entries)
    {
      entries := SettingsPayload(settingsForm);
      SettingsPayloadKeysDistinct(settingsForm);
    }
  }
}
