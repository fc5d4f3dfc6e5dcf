/**
  Tab switching in assets/scripts.js (`initPatientTabs`, `switchTab`): every
  tab is deselected and every panel hidden, then the chosen tab is selected
  and the panel its `aria-controls` names, if there is one, is shown.
*/
module Tabs {
  import opened Wrappers
  import opened Dom

  /** The id `switchTab` looks up: the tab's `aria-controls`, or the string
      `"null"` that `getElementById(null)` searches for when the attribute is missing. */
  function ControlledId(controls: Option<string>): (id: string)
    ensures controls.Some? ==> id == controls.value
  {
    controls.GetOr("null")
  }

  /** The `tablist`: the tabs with their `aria-controls` and the `tabpanel`
      elements with their ids, both in document order. */
  class TabList {
    const controls: seq<Option<string>>
    const panelIds: seq<string>
    /** The tab's `aria-selected` is `"true"`. */
    const selected: array<bool>
    /** The panel's `hidden` flag. */
    const panelHidden: array<bool>

    predicate Valid()
      reads this
    {
      selected.Length == |controls| && panelHidden.Length == |panelIds| && selected != panelHidden
    }

    /** The panel that `getElementById` returns for tab `t`: the first panel with that id, if any.
        An empty id names no element, since `id=""` gives an element no ID. */
    function PanelOf(t: nat): (r: Option<nat>)
      requires Valid() && t < |controls|
      reads this
      ensures r.Some? ==> r.value < |panelIds| && panelIds[r.value] == ControlledId(controls[t])
      ensures r.Some? ==> ControlledId(controls[t]) !in panelIds[..r.value]
      ensures r.None? <==> ControlledId(controls[t]) == "" || ControlledId(controls[t]) !in panelIds
    {
      if ControlledId(controls[t]) == "" then None else FirstIndexOf(panelIds, ControlledId(controls[t]))
    }

    constructor (controls: seq<Option<string>>, panelIds: seq<string>, selected: seq<bool>, panelHidden: seq<bool>)
      requires |selected| == |controls| && |panelHidden| == |panelIds|
      ensures Valid()
      ensures this.controls == controls && this.panelIds == panelIds
      ensures fresh(this.selected) && fresh(this.panelHidden)
      ensures this.selected[..] == selected && this.panelHidden[..] == panelHidden
    {
      this.controls := controls;
      this.panelIds := panelIds;
      this.selected := new bool[|selected|](k requires 0 <= k < |selected| => selected[k]);
      this.panelHidden := new bool[|panelHidden|](k requires 0 <= k < |panelHidden| => panelHidden[k]);
    }

    /** `switchTab(t)`: `t` is the only selected tab, and the only panel
        not hidden is the one its `aria-controls` names, when that panel exists. */
    method SwitchTab(t: nat)
      requires Valid() && t < |controls|
      modifies selected, panelHidden
      ensures forall i :: 0 <= i < selected.Length ==> (selected[i] <==> i == t)
      ensures forall j :: 0 <= j < panelHidden.Length ==> (!panelHidden[j] <==> PanelOf(t) == Some(j))
      ensures PanelOf(t).None? ==> forall j :: 0 <= j < panelHidden.Length ==> panelHidden[j]
    {
      var i := 0;
      while i < selected.Length
        modifies selected
        invariant 0 <= i <= selected.Length
        invariant forall k :: 0 <= k < i ==> !selected[k]
      {
        selected[i] := false;
        i := i + 1;
      }
      var j := 0;
      while j < panelHidden.Length
        modifies panelHidden
        invariant 0 <= j <= panelHidden.Length
        invariant forall k :: 0 <= k < j ==> panelHidden[k]
        invariant forall k :: 0 <= k < selected.Length ==> !selected[k]
      {
        panelHidden[j] := true;
        j := j + 1;
      }
      selected[t] := true;
      var panel := PanelOf(t);
      if panel.Some? {
        panelHidden[panel.value] := false;
      }
    }

    /** The tab's `keydown` handler: Enter and Space switch to the tab; other keys do nothing. */
    method OnTabKey(t: nat, key: string)
      requires Valid() && t < |controls|
      modifies selected, panelHidden
      ensures key == "Enter" || key == " " ==> forall i :: 0 <= i < selected.Length ==> (selected[i] <==> i == t)
      ensures key == "Enter" || key == " " ==>
        forall j :: 0 <= j < panelHidden.Length ==> (!panelHidden[j] <==> PanelOf(t) == Some(j))
      ensures !(key == "Enter" || key == " ") ==> selected[..] == old(selected[..]) && panelHidden[..] == old(panelHidden[..])
    {
      if key == "Enter" || key == " " {
        SwitchTab(t);
      }
    }
  }
}
