/**
 * Services/SettingsService.cs: where a setting's value comes from. A row of
 * the Settings table with a non-empty value wins over the configuration
 * files; the values of keys that mention "Password" are stored protected and
 * are unprotected on the way out.
 */
module Settings {
  import opened Wrappers
  import opened DataModels

  /** `string.IsNullOrEmpty`. */
  predicate IsNullOrEmpty(s: Option<string>) {
    s.None? || s.value == []
  }

  /** Upper-casing as ordinal case-insensitive comparison applies it, on the ASCII letters. */
  function UpperAscii(c: char): char {
    if 'a' <= c <= 'z' then (c as int - 32) as char else c
  }

  /** The window of `s` starting at `i` matches `pattern`. */
  predicate MatchesAt(s: string, pattern: string, i: nat) {
    i + |pattern| <= |s| && forall k :: 0 <= k < |pattern| ==> UpperAscii(s[i + k]) == UpperAscii(pattern[k])
  }

  /** `s.Contains(pattern, StringComparison.OrdinalIgnoreCase)`, scanning from the left. */
  predicate ContainsIgnoreCase(s: string, pattern: string)
    decreases |s|
  {
    if MatchesAt(s, pattern, 0) then true
    else if |s| <= |pattern| then false
    else ContainsIgnoreCase(s[1..], pattern)
  }

  lemma MatchesAtTail(s: string, pattern: string, i: nat)
    requires 1 <= i && s != []
    ensures MatchesAt(s, pattern, i) <==> MatchesAt(s[1..], pattern, i - 1)
  {
  }

  /** The scan finds the pattern exactly when some window of `s` matches it. */
  lemma {:induction false} ContainsIgnoreCaseSpec(s: string, pattern: string)
    ensures ContainsIgnoreCase(s, pattern) <==> exists i: nat :: MatchesAt(s, pattern, i)
    decreases |s|
  {
    if MatchesAt(s, pattern, 0) {
    } else if |s| <= |pattern| {
      forall i: nat ensures !MatchesAt(s, pattern, i) {
      }
    } else {
      ContainsIgnoreCaseSpec(s[1..], pattern);
      if ContainsIgnoreCase(s[1..], pattern) {
        var j: nat :| MatchesAt(s[1..], pattern, j);
        MatchesAtTail(s, pattern, j + 1);
      } else {
        forall i: nat ensures !MatchesAt(s, pattern, i) {
          if i > 0 { MatchesAtTail(s, pattern, i); }
        }
      }
    }
  }

  /** The keys whose values are stored protected. */
  predicate IsPasswordKey(key: string) {
    ContainsIgnoreCase(key, "Password")
  }

  /** `Settings.FirstOrDefault(s => s.Key == key)`. */
  function FirstWithKey(rows: seq<SettingRow>, key: string): (r: Option<SettingRow>)
    ensures r.Some? ==> r.value in rows && r.value.key == key
  {
    if rows == [] then None
    else if rows[0].key == key then Some(rows[0])
    else FirstWithKey(rows[1..], key)
  }

  /** The row found is the one at the first index carrying the key; there is none when no row does. */
  lemma {:induction false} FirstWithKeySpec(rows: seq<SettingRow>, key: string)
    ensures FirstWithKey(rows, key).None? <==> forall i :: 0 <= i < |rows| ==> rows[i].key != key
    ensures FirstWithKey(rows, key).Some? ==>
      exists i :: 0 <= i < |rows| && rows[i] == FirstWithKey(rows, key).value &&
        forall j :: 0 <= j < i ==> rows[j].key != key
  {
    if rows != [] && rows[0].key != key {
      FirstWithKeySpec(rows[1..], key);
      if FirstWithKey(rows[1..], key).Some? {
        var i :| 0 <= i < |rows[1..]| && rows[1..][i] == FirstWithKey(rows[1..], key).value &&
          forall j :: 0 <= j < i ==> rows[1..][j].key != key;
        assert rows[i + 1] == FirstWithKey(rows, key).value;
        forall j | 0 <= j < i + 1 ensures rows[j].key != key {
          if j > 0 { assert rows[j] == rows[1..][j - 1]; }
        }
      } else {
        forall i | 0 <= i < |rows| ensures rows[i].key != key {
          if i > 0 { assert rows[i] == rows[1..][i - 1]; }
        }
      }
    }
  }

  /**
   * `GetSettingAsync(key)`: `config` is `IConfiguration[key]` and `unprotect`
   * is the data protector's `Unprotect`, `None` where it throws.
   */
  function GetSetting(rows: seq<SettingRow>, config: string -> Option<string>,
                      unprotect: string -> Option<string>, key: string): Option<string>
  {
    var row := FirstWithKey(rows, key);
    if row.Some? && !IsNullOrEmpty(row.value.value) then
      if IsPasswordKey(key) then unprotect(row.value.value.value) else row.value.value
    else config(key)
  }

  /** A stored non-empty value is returned verbatim for ordinary keys, whatever the configuration says. */
  lemma DatabaseWins(rows: seq<SettingRow>, config: string -> Option<string>,
                     unprotect: string -> Option<string>, i: nat)
    requires i < |rows| && forall j :: 0 <= j < i ==> rows[j].key != rows[i].key
    requires !IsNullOrEmpty(rows[i].value) && !IsPasswordKey(rows[i].key)
    ensures GetSetting(rows, config, unprotect, rows[i].key) == rows[i].value
  {
    FirstWithKeySpec(rows, rows[i].key);
  }

  /** For password keys the stored value is unprotected, and a failure gives null with no fallback. */
  lemma PasswordIsUnprotected(rows: seq<SettingRow>, config: string -> Option<string>,
                              unprotect: string -> Option<string>, i: nat)
    requires i < |rows| && forall j :: 0 <= j < i ==> rows[j].key != rows[i].key
    requires !IsNullOrEmpty(rows[i].value) && IsPasswordKey(rows[i].key)
    ensures GetSetting(rows, config, unprotect, rows[i].key) == unprotect(rows[i].value.value)
    ensures unprotect(rows[i].value.value).None? ==> GetSetting(rows, config, unprotect, rows[i].key).None?
  {
    FirstWithKeySpec(rows, rows[i].key);
  }

  /** Without a row for the key the configuration answers, unprotected even for password keys. */
  lemma MissingRowFallsBack(rows: seq<SettingRow>, config: string -> Option<string>,
                            unprotect: string -> Option<string>, key: string)
    requires forall i :: 0 <= i < |rows| ==> rows[i].key != key
    ensures GetSetting(rows, config, unprotect, key) == config(key)
  {
    FirstWithKeySpec(rows, key);
  }

  /** A row whose value is null or empty also defers to the configuration, unprotected even for password keys. */
  lemma EmptyRowFallsBack(rows: seq<SettingRow>, config: string -> Option<string>,
                          unprotect: string -> Option<string>, i: nat)
    requires i < |rows| && forall j :: 0 <= j < i ==> rows[j].key != rows[i].key
    requires IsNullOrEmpty(rows[i].value)
    ensures GetSetting(rows, config, unprotect, rows[i].key) == config(rows[i].key)
  {
    FirstWithKeySpec(rows, rows[i].key);
  }

  /** A key with "Password" at some position, in any ASCII case, is a password key. */
  lemma PasswordKeyAt(key: string, i: nat)
    requires MatchesAt(key, "Password", i)
    ensures IsPasswordKey(key)
  {
    ContainsIgnoreCaseSpec(key, "Password");
  }

  /** The Pronet password is stored protected. */
  lemma PronetPasswordKeyIsProtected()
    ensures IsPasswordKey("Credentials:Pronet:Password")
  {
    assert MatchesAt("Credentials:Pronet:Password", "Password", 19);
    PasswordKeyAt("Credentials:Pronet:Password", 19);
  }

  /** The Nebim password is stored protected. */
  lemma NebimPasswordKeyIsProtected()
    ensures IsPasswordKey("Credentials:Nebim:Password")
  {
    assert MatchesAt("Credentials:Nebim:Password", "Password", 18);
    PasswordKeyAt("Credentials:Nebim:Password", 18);
  }
}
