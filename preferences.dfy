/**
  `savePreference` and `getPreference` of assets/scripts.js: booleans are
  written as the strings `"true"` and `"false"`, a quota error clears the
  storage and retries once, and reading turns those two strings back into
  booleans.
*/
module Preferences {
  import opened Wrappers
  import opened BrowserStorage

  /** A preference value: a boolean or a string. */
  datatype PrefValue = Flag(b: bool) | Text(s: string)

  /** JavaScript truthiness of a preference value: `true`, or a non-empty string. */
  predicate Truthy(v: PrefValue) {
    match v
    case Flag(b) => b
    case Text(s) => s != []
  }

  /** `typeof value === 'boolean' ? String(value) : value`: the string written to storage. */
  function Stored(v: PrefValue): string {
    match v
    case Flag(b) => if b then "true" else "false"
    case Text(s) => s
  }

  /** How the clear-and-retry after a quota error goes: both calls succeed,
      `clear` throws, or `clear` succeeds and the second `setItem` throws. */
  datatype Retry = RetrySucceeds | ClearThrows | SetThrows

  /** The value ends up stored: the first write succeeds, or it hits the quota and the retry succeeds. */
  predicate Saved(fault: Fault, retry: Retry) {
    fault == NoFault || (fault == QuotaExceeded && retry == RetrySucceeds)
  }

  /** The storage after `savePreference(key, value)`. A successful save
      stores the value's string under the key; no other key gains a value or
      changes its value; a direct write keeps every other key, while the
      quota path leaves at most the new key; a failed save leaves the storage
      as it was or empty; nothing is thrown to the caller. */
  function AfterSave(items: map<string, string>, key: string, value: PrefValue, fault: Fault, retry: Retry): (r: map<string, string>)
    ensures Saved(fault, retry) ==> key in r && r[key] == Stored(value)
    ensures forall k :: k in r && k != key ==> k in items && r[k] == items[k]
    ensures fault == NoFault ==> forall k :: k in items ==> k in r
    ensures fault == QuotaExceeded && retry != ClearThrows ==> forall k :: k in r ==> k == key
    ensures !Saved(fault, retry) ==> r == items || r == map[]
  {
    match fault
    case NoFault => items[key := Stored(value)]
    case OtherError => items
    case QuotaExceeded =>
      match retry
      case RetrySucceeds => map[key := Stored(value)]
      case ClearThrows => items
      case SetThrows => map[]
  }

  /** `savePreference(key, value)`: one write; on a quota error, `clear` and a second write. */
  method SavePreference(store: LocalStorage, key: string, value: PrefValue, fault: Fault, retry: Retry)
    modifies store
    ensures store.items == AfterSave(old(store.items), key, value, fault, retry)
  {
    var thrown := store.SetItem(key, Stored(value), fault);
    if thrown == QuotaExceeded {
      var clearThrown := store.Clear(retry == ClearThrows);
      if !clearThrown {
        var retryThrown := store.SetItem(key, Stored(value), if retry == SetThrows then OtherError else NoFault);
      }
    }
  }

  /** `getPreference(key, defaultValue)` over the stored pairs; `readFails`
      says that `getItem` throws. The default comes back when the read throws
      or the key is absent; otherwise the result is written back as exactly
      the stored string, and it is a boolean iff that string is `"true"` or
      `"false"`. */
  function GetPreference(items: map<string, string>, readFails: bool, key: string, default: PrefValue): (r: PrefValue)
    ensures readFails || key !in items ==> r == default
    ensures !readFails && key in items ==> Stored(r) == items[key]
    ensures !readFails && key in items ==> (r.Flag? <==> items[key] == "true" || items[key] == "false")
  {
    if readFails || key !in items then default
    else if items[key] == "true" then Flag(true)
    else if items[key] == "false" then Flag(false)
    else Text(items[key])
  }

  /** A boolean that was saved is read back as that boolean, whatever the default. */
  lemma FlagRoundTrip(items: map<string, string>, key: string, b: bool, fault: Fault, retry: Retry, default: PrefValue)
    requires Saved(fault, retry)
    ensures GetPreference(AfterSave(items, key, Flag(b), fault, retry), false, key, default) == Flag(b)
  {
    var r := AfterSave(items, key, Flag(b), fault, retry);
    assert r[key] == Stored(Flag(b));
  }

  /** A saved string other than `"true"` and `"false"` is read back unchanged. */
  lemma TextRoundTrip(items: map<string, string>, key: string, s: string, fault: Fault, retry: Retry, default: PrefValue)
    requires Saved(fault, retry)
    requires s != "true" && s != "false"
    ensures GetPreference(AfterSave(items, key, Text(s), fault, retry), false, key, default) == Text(s)
  {
    var r := AfterSave(items, key, Text(s), fault, retry);
    assert r[key] == s;
  }

  /** Saving one key never changes what another key reads as, except that the quota path may erase it. */
  lemma SaveKeepsOtherPreferences(items: map<string, string>, key: string, other: string, value: PrefValue,
                                  fault: Fault, retry: Retry, default: PrefValue)
    requires other != key
    ensures var after := GetPreference(AfterSave(items, key, value, fault, retry), false, other, default);
      after == GetPreference(items, false, other, default) || after == default
    ensures fault != QuotaExceeded ==>
      GetPreference(AfterSave(items, key, value, fault, retry), false, other, default) == GetPreference(items, false, other, default)
  {
  }
}
