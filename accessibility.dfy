/**
  The accessibility toggles of assets/ud-a11y.js: a button flips its
  `aria-pressed`, the contrast and font-scale buttons also set a body class
  and save the new state under a key prefixed with `a11y-`, and a page load
  turns a feature on only when its stored string is exactly `"true"`.
*/
module Accessibility {
  import opened Wrappers
  import opened Dom
  import opened BrowserStorage

  /** The namespace of the accessibility preferences in storage. */
  const KeyPrefix := "a11y-"

  const ContrastAction := "toggle-contrast"
  const FontScaleAction := "toggle-font-scale"
  const ContrastKey := "highContrast"
  const LargeTextKey := "largeText"

  /** The storage key of a preference: the prefix, then the key itself. */
  function StorageKey(key: string): (k: string)
    ensures |k| == |KeyPrefix| + |key|
    ensures k[..|KeyPrefix|] == KeyPrefix && k[|KeyPrefix|..] == key
  {
    KeyPrefix + key
  }

  /** Different preferences never share a storage key. */
  lemma StorageKeysDistinct(a: string, b: string)
    requires a != b
    ensures StorageKey(a) != StorageKey(b)
  {
    assert StorageKey(a)[|KeyPrefix|..] == a;
    assert StorageKey(b)[|KeyPrefix|..] == b;
  }

  /** How `setAttribute` and `setItem` write a boolean. */
  function BoolString(b: bool): (s: string)
    ensures s == "true" <==> b
  {
    if b then "true" else "false"
  }

  /** The storage after `savePreference(key, value)`: the value's string
      under the prefixed key, or, when `setItem` throws, the storage as it was
      (the error is only logged). */
  function AfterSave(items: map<string, string>, key: string, value: bool, fault: Fault): (r: map<string, string>)
    ensures fault == NoFault ==> StorageKey(key) in r && (r[StorageKey(key)] == "true" <==> value)
    ensures forall k :: k != StorageKey(key) ==> (k in r <==> k in items) && (k in r ==> r[k] == items[k])
    ensures fault != NoFault ==> r == items
  {
    if fault == NoFault then items[StorageKey(key) := BoolString(value)] else items
  }

  /** `localStorage.getItem('a11y-' + key) === 'true'`, with a read that throws counting as not enabled. */
  predicate LoadsEnabled(items: map<string, string>, readFails: bool, key: string) {
    !readFails && StorageKey(key) in items && items[StorageKey(key)] == "true"
  }

  /** A saved state is the state the next load sees. */
  lemma SavedStateLoads(items: map<string, string>, key: string, value: bool, readFails: bool)
    ensures LoadsEnabled(AfterSave(items, key, value, NoFault), false, key) == value
    ensures readFails ==> !LoadsEnabled(AfterSave(items, key, value, NoFault), readFails, key)
  {
  }

  /** Saving one preference does not change whether the other one loads. */
  lemma SaveKeepsOtherPreference(items: map<string, string>, key: string, other: string, value: bool, fault: Fault, readFails: bool)
    requires key != other
    ensures LoadsEnabled(AfterSave(items, key, value, fault), readFails, other) == LoadsEnabled(items, readFails, other)
  {
    StorageKeysDistinct(key, other);
  }

  /** Only the exact string `"true"` enables a feature: `"TRUE"`, `"1"` or `" true"` do not. */
  lemma OnlyExactTrueLoads(items: map<string, string>, key: string)
    requires StorageKey(key) in items && items[StorageKey(key)] != "true"
    ensures !LoadsEnabled(items, false, key)
  {
  }

  /** The page: the `.a11y-toggle` buttons in document order and the body classes. */
  class A11yPage {
    const storage: LocalStorage
    /** Each button's `data-action` (`None` when it has none). */
    const actions: seq<Option<string>>
    /** Each button's `aria-pressed` attribute (`None` when it has none). */
    const pressed: array<Option<string>>

    /** The body has class `high-contrast`. */
    var highContrast: bool
    /** The body has class `large-text`. */
    var largeText: bool

    predicate Valid()
      reads this
    {
      pressed.Length == |actions|
    }

    constructor (storage: LocalStorage, actions: seq<Option<string>>, pressed: seq<Option<string>>)
      requires |pressed| == |actions|
      ensures Valid()
      ensures this.storage == storage && this.actions == actions
      ensures fresh(this.pressed) && this.pressed[..] == pressed
      ensures !highContrast && !largeText
    {
      this.storage := storage;
      this.actions := actions;
      this.pressed := new Option<string>[|pressed|](k requires 0 <= k < |pressed| => pressed[k]);
      highContrast := false;
      largeText := false;
    }

    /** `toggleHighContrast(enable)`: the body has `high-contrast` iff `enable`. */
    method ToggleHighContrast(enable: bool)
      modifies this`highContrast
      ensures highContrast == enable
    {
      if enable {
        highContrast := true;
      } else {
        highContrast := false;
      }
    }

    /** `toggleLargeText(enable)`: the body has `large-text` iff `enable`. */
    method ToggleLargeText(enable: bool)
      modifies this`largeText
      ensures largeText == enable
    {
      if enable {
        largeText := true;
      } else {
        largeText := false;
      }
    }

    /** `savePreference(key, value)`: written under the prefixed key; a throwing `setItem` is only logged. */
    method SavePreference(key: string, value: bool, fault: Fault)
      modifies storage
      ensures storage.items == AfterSave(old(storage.items), key, value, fault)
    {
      var thrown := storage.SetItem(StorageKey(key), BoolString(value), fault);
    }

    /** `handleToggle(action, button b)`: the button's `aria-pressed` is
        negated (a missing or non-`"true"` value counts as not pressed). The
        contrast and font-scale actions also set their body class to the new
        state and save it; any other action changes nothing else. */
    method HandleToggle(b: nat, fault: Fault)
      requires Valid() && b < |actions|
      modifies pressed, this`highContrast, this`largeText, storage
      ensures var newState := old(pressed[b]) != Some("true");
        && pressed[b] == Some(BoolString(newState))
        && (actions[b] == Some(ContrastAction) ==>
              highContrast == newState && largeText == old(largeText)
              && storage.items == AfterSave(old(storage.items), ContrastKey, newState, fault))
        && (actions[b] == Some(FontScaleAction) ==>
              largeText == newState && highContrast == old(highContrast)
              && storage.items == AfterSave(old(storage.items), LargeTextKey, newState, fault))
      ensures actions[b] != Some(ContrastAction) && actions[b] != Some(FontScaleAction) ==>
        highContrast == old(highContrast) && largeText == old(largeText) && storage.items == old(storage.items)
      ensures (pressed[b] == Some("true")) == !(old(pressed[b]) == Some("true"))
      ensures forall k :: 0 <= k < pressed.Length && k != b ==> pressed[k] == old(pressed[k])
    {
      var isPressed := pressed[b] == Some("true");
      var newState := !isPressed;
      pressed[b] := Some(BoolString(newState));
      if actions[b] == Some(ContrastAction) {
        ToggleHighContrast(newState);
        SavePreference(ContrastKey, newState, fault);
      } else if actions[b] == Some(FontScaleAction) {
        ToggleLargeText(newState);
        SavePreference(LargeTextKey, newState, fault);
      }
    }

    /** `updateButtonState(action, true)`: the first button with that action, if any, becomes pressed. */
    method PressFirst(action: string)
      requires Valid()
      modifies pressed
      ensures forall k :: 0 <= k < pressed.Length ==>
        pressed[k] == if FirstIndexOf(actions, Some(action)) == Some(k) then Some("true") else old(pressed[k])
    {
      var button := FirstIndexOf(actions, Some(action));
      if button.Some? {
        pressed[button.value] := Some(BoolString(true));
      }
    }

    /** `loadSavedPreferences`: each feature whose stored string is exactly
        `"true"` is switched on and its first button pressed; anything else
        (another string, no value, a read that throws) leaves that feature's
        class and buttons as they were. */
    method LoadSavedPreferences(readFails: bool)
      requires Valid()
      modifies pressed, this`highContrast, this`largeText
      ensures LoadsEnabled(storage.items, readFails, ContrastKey) ==> highContrast
      ensures !LoadsEnabled(storage.items, readFails, ContrastKey) ==> highContrast == old(highContrast)
      ensures LoadsEnabled(storage.items, readFails, LargeTextKey) ==> largeText
      ensures !LoadsEnabled(storage.items, readFails, LargeTextKey) ==> largeText == old(largeText)
      ensures forall k :: 0 <= k < pressed.Length ==>
        pressed[k] == if || (LoadsEnabled(storage.items, readFails, ContrastKey) && FirstIndexOf(actions, Some(ContrastAction)) == Some(k))
                         || (LoadsEnabled(storage.items, readFails, LargeTextKey) && FirstIndexOf(actions, Some(FontScaleAction)) == Some(k))
                      then Some("true") else old(pressed[k])
    {
      if LoadsEnabled(storage.items, readFails, ContrastKey) {
        ToggleHighContrast(true);
        PressFirst(ContrastAction);
      }
      if LoadsEnabled(storage.items, readFails, LargeTextKey) {
        ToggleLargeText(true);
        PressFirst(FontScaleAction);
      }
    }
  }
}
