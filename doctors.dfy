/**
  Doctor selection in assets/scripts.js (`initDoctorSelection`,
  `selectDoctor`, `filterDoctors`): exactly one card is selected at a time,
  its doctor's name goes into the hidden input, and the two selects hide
  the cards that fail either filter.
*/
module Doctors {
  import opened Wrappers
  import opened JsText

  /** The specialization term `filterDoctors` uses: the select's value lower-cased, or `''` without the select. */
  function SpecializationTerm(specialization: Option<string>): (term: string)
    ensures specialization.None? ==> term == []
    ensures |term| == |specialization.GetOr([])|
  {
    if specialization.Some? then ToLower(specialization.value) else []
  }

  /** The specialization half of the filter: an empty term keeps every card;
      any other term must occur in the lower-cased specialty. */
  predicate SpecialtyMatches(specialty: string, specialization: Option<string>) {
    var term := SpecializationTerm(specialization);
    term == [] || Contains(ToLower(specialty), term)
  }

  /** The availability half: only the value `"available"` filters, and it keeps the available doctors. */
  predicate AvailabilityMatches(isAvailable: bool, availability: Option<string>) {
    availability != Some("available") || isAvailable
  }

  /** A card is displayed iff it passes both halves. */
  predicate DoctorShown(specialty: string, isAvailable: bool, specialization: Option<string>, availability: Option<string>) {
    SpecialtyMatches(specialty, specialization) && AvailabilityMatches(isAvailable, availability)
  }

  /** Neither filter set: every card passes. */
  lemma NoFilterShowsEveryone(specialty: string, isAvailable: bool, availability: Option<string>)
    requires availability != Some("available")
    ensures DoctorShown(specialty, isAvailable, None, availability)
    ensures DoctorShown(specialty, isAvailable, Some([]), availability)
  {
  }

  /** The availability filter keeps exactly the available doctors among those the specialization keeps. */
  lemma AvailableFilterKeepsAvailable(specialty: string, isAvailable: bool, specialization: Option<string>)
    ensures DoctorShown(specialty, isAvailable, specialization, Some("available"))
      <==> isAvailable && DoctorShown(specialty, isAvailable, specialization, None)
  {
  }

  /** A specialization that occurs in the specialty, in any letter case, keeps the card. */
  lemma SpecialtyTermKeepsCard(specialty: string, value: string, isAvailable: bool, availability: Option<string>)
    requires Contains(ToLower(specialty), ToLower(value))
    requires availability != Some("available")
    ensures DoctorShown(specialty, isAvailable, Some(value), availability)
  {
  }

  /** The doctor cards in document order and the controls around them. */
  class DoctorPicker {
    /** Each card's `.doctor-name` and `.doctor-specialty` text. */
    const names: seq<string>
    const specialties: seq<string>
    /** The card's `.availability-badge` exists and has class `available`. */
    const available: seq<bool>
    /** The hidden `#selectedDoctor` input is on the page. */
    const hasInput: bool
    /** The card has class `selected`. */
    const selected: array<bool>
    /** The card's `display` is `block` rather than `none`. */
    const displayed: array<bool>

    var inputValue: string
    /** The values of the `#specialization` and `#availability` selects (`None` for a missing one). */
    var specialization: Option<string>
    var availability: Option<string>

    predicate Valid()
      reads this
    {
      && |specialties| == |names| && |available| == |names|
      && selected.Length == |names| && displayed.Length == |names|
      && selected != displayed
    }

    constructor (names: seq<string>, specialties: seq<string>, available: seq<bool>, hasInput: bool,
                 specialization: Option<string>, availability: Option<string>)
      requires |specialties| == |names| && |available| == |names|
      ensures Valid()
      ensures this.names == names && this.specialties == specialties && this.available == available
      ensures this.hasInput == hasInput && this.specialization == specialization && this.availability == availability
      ensures fresh(selected) && fresh(displayed)
      ensures forall k :: 0 <= k < |names| ==> !selected[k] && displayed[k]
    {
      this.names := names;
      this.specialties := specialties;
      this.available := available;
      this.hasInput := hasInput;
      this.specialization := specialization;
      this.availability := availability;
      selected := new bool[|names|](k => false);
      displayed := new bool[|names|](k => true);
      inputValue := [];
    }

    /** `selectDoctor(card c, input)`: `c` is the only selected card, the
        input (when it exists) holds its doctor's name, and no card's
        visibility changes. */
    method SelectDoctor(c: nat)
      requires Valid() && c < |names|
      modifies selected, this`inputValue
      ensures forall k :: 0 <= k < selected.Length ==> (selected[k] <==> k == c)
      ensures hasInput ==> inputValue == names[c]
      ensures !hasInput ==> inputValue == old(inputValue)
      ensures displayed[..] == old(displayed[..])
    {
      var k := 0;
      while k < selected.Length
        modifies selected
        invariant 0 <= k <= selected.Length
        invariant forall j :: 0 <= j < k ==> !selected[j]
      {
        selected[k] := false;
        k := k + 1;
      }
      selected[c] := true;
      if hasInput {
        inputValue := names[c];
      }
    }

    /** The card's `keydown` handler: Enter and Space select it; other keys do nothing. */
    method OnCardKey(c: nat, key: string)
      requires Valid() && c < |names|
      modifies selected, this`inputValue
      ensures key == "Enter" || key == " " ==> forall k :: 0 <= k < selected.Length ==> (selected[k] <==> k == c)
      ensures (key == "Enter" || key == " ") && hasInput ==> inputValue == names[c]
      ensures (key == "Enter" || key == " ") && !hasInput ==> inputValue == old(inputValue)
      ensures !(key == "Enter" || key == " ") ==> selected[..] == old(selected[..]) && inputValue == old(inputValue)
      ensures displayed[..] == old(displayed[..])
    {
      if key == "Enter" || key == " " {
        SelectDoctor(c);
      }
    }

    /** `filterDoctors`: each card is displayed iff it passes both filters, and the selection is left alone. */
    method FilterDoctors()
      requires Valid()
      modifies displayed
      ensures forall k :: 0 <= k < displayed.Length ==>
        (displayed[k] <==> DoctorShown(specialties[k], available[k], specialization, availability))
      ensures selected[..] == old(selected[..])
    {
      var k := 0;
      while k < displayed.Length
        modifies displayed
        invariant 0 <= k <= displayed.Length
        invariant forall j :: 0 <= j < k ==>
          (displayed[j] <==> DoctorShown(specialties[j], available[j], specialization, availability))
      {
        var showCard := true;
        var term := SpecializationTerm(specialization);
        if term != [] && !Contains(ToLower(specialties[k]), term) {
          showCard := false;
        }
        if availability == Some("available") && !available[k] {
          showCard := false;
        }
        displayed[k] := showCard;
        k := k + 1;
      }
    }

    /** The `change` handler of an existing select: the new value is taken and the cards are filtered again. */
    method OnFilterChange(isSpecialization: bool, value: string)
      requires Valid()
      requires isSpecialization ==> specialization.Some?
      requires !isSpecialization ==> availability.Some?
      modifies this`specialization, this`availability, displayed
      ensures isSpecialization ==> specialization == Some(value) && availability == old(availability)
      ensures !isSpecialization ==> availability == Some(value) && specialization == old(specialization)
      ensures forall k :: 0 <= k < displayed.Length ==>
        (displayed[k] <==> DoctorShown(specialties[k], available[k], specialization, availability))
    {
      if isSpecialization {
        specialization := Some(value);
      } else {
        availability := Some(value);
      }
      FilterDoctors();
    }
  }
}
