/**
  The DOM side of the patients page (assets/patients.js): the slot
  `currentPatients` that `filterPatients` fills and `renderPatients` shows as
  card visibility, the slot `selectedPatient` of the profile modal, and the
  event handlers of the search box, the filter selects, the cards and the modal.
*/
module PatientsPage {
  import opened Wrappers
  import opened JsText
  import opened PatientDirectory
  import opened ProfileHeader
  import opened Dom
  import PdfExport
  import PdfLayout

  /** The MRNs of the records, in order. */
  function MrnsOf(ps: seq<Patient>): (r: seq<string>)
    ensures |r| == |ps|
    ensures forall i :: 0 <= i < |ps| ==> r[i] == ps[i].mrn
  {
    seq(|ps|, i requires 0 <= i < |ps| => ps[i].mrn)
  }

  /** `ps.find(p => p.mrn === mrn)`: the first record with that MRN, if any. */
  function FindByMrn(ps: seq<Patient>, mrn: string): (r: Option<Patient>)
    ensures r.None? <==> mrn !in MrnsOf(ps)
    ensures r.Some? ==> r.value in ps && r.value.mrn == mrn
    ensures r.Some? ==> exists i :: 0 <= i < |ps| && ps[i] == r.value && forall j :: 0 <= j < i ==> ps[j].mrn != mrn
  {
    match FirstIndexOf(MrnsOf(ps), mrn)
    case None => None
    case Some(i) =>
      assert forall j :: 0 <= j < i ==> ps[j].mrn == MrnsOf(ps)[..i][j];
      Some(ps[i])
  }

  /** Some record of the directory carries the MRN and satisfies the query. */
  predicate HasMatchingRecord(dir: seq<Patient>, q: Query, mrn: string) {
    exists i :: 0 <= i < |dir| && dir[i].mrn == mrn && Matches(dir[i], q)
  }

  /** The MRNs of the query result are exactly those of the matching records of the directory. */
  lemma ResultMrns(dir: seq<Patient>, q: Query, mrn: string)
    ensures mrn in MrnsOf(ApplyQuery(dir, q)) <==> HasMatchingRecord(dir, q, mrn)
  {
    var r := ApplyQuery(dir, q);
    ApplyQueryResult(dir, q);
    if mrn in MrnsOf(r) {
      ResultMrnIsMatching(dir, q, r, mrn);
    }
    if HasMatchingRecord(dir, q, mrn) {
      MatchingMrnIsResult(dir, q, r, mrn);
    }
  }

  lemma ResultMrnIsMatching(dir: seq<Patient>, q: Query, r: seq<Patient>, mrn: string)
    requires forall p :: p in r <==> p in dir && Matches(p, q)
    requires mrn in MrnsOf(r)
    ensures HasMatchingRecord(dir, q, mrn)
  {
    var k :| 0 <= k < |r| && MrnsOf(r)[k] == mrn;
    assert r[k] in r;
    var i :| 0 <= i < |dir| && dir[i] == r[k];
    assert dir[i].mrn == mrn && Matches(dir[i], q);
  }

  lemma MatchingMrnIsResult(dir: seq<Patient>, q: Query, r: seq<Patient>, mrn: string)
    requires forall p :: p in r <==> p in dir && Matches(p, q)
    requires HasMatchingRecord(dir, q, mrn)
    ensures mrn in MrnsOf(r)
  {
    var i :| 0 <= i < |dir| && dir[i].mrn == mrn && Matches(dir[i], q);
    assert dir[i] in dir;
    var k :| 0 <= k < |r| && r[k] == dir[i];
    assert MrnsOf(r)[k] == mrn;
  }

  /** An MRN is that of a record the filter keeps iff some directory record with that MRN satisfies the query. */
  lemma FilteredMrns(dir: seq<Patient>, q: Query, mrn: string)
    ensures mrn in MrnsOf(Filter(dir, q)) <==> HasMatchingRecord(dir, q, mrn)
  {
    var r := Filter(dir, q);
    if mrn in MrnsOf(r) {
      ResultMrnIsMatching(dir, q, r, mrn);
    }
    if HasMatchingRecord(dir, q, mrn) {
      MatchingMrnIsResult(dir, q, r, mrn);
    }
  }

  /** Cards displayed for the query result are the cards of the matching records. */
  lemma CardsOfResult(dir: seq<Patient>, q: Query, cards: seq<string>, shown: seq<bool>)
    requires |shown| == |cards|
    requires forall k :: 0 <= k < |cards| ==> (shown[k] <==> cards[k] in MrnsOf(ApplyQuery(dir, q)))
    ensures forall k :: 0 <= k < |cards| ==> (shown[k] <==> HasMatchingRecord(dir, q, cards[k]))
    ensures forall k :: 0 <= k < |cards| ==> (shown[k] <==> cards[k] in MrnsOf(Filter(dir, q)))
  {
    forall k | 0 <= k < |cards|
      ensures shown[k] <==> HasMatchingRecord(dir, q, cards[k])
      ensures shown[k] <==> cards[k] in MrnsOf(Filter(dir, q))
    {
      ResultMrns(dir, q, cards[k]);
      FilteredMrns(dir, q, cards[k]);
    }
  }

  /** The controls after "Reset": an empty search box and "all", "all", "name" in the selects that exist. */
  function ResetControls(c: Controls): (r: Controls)
    ensures QueryOf(r) == Query([], "all", "all", "name")
  {
    var r := Controls(
      if c.searchInput.Some? then Some([]) else None,
      if c.statusFilter.Some? then Some("all") else None,
      if c.ageFilter.Some? then Some("all") else None,
      if c.sortBy.Some? then Some("name") else None);
    assert Trim(ToLower([])) == [];
    r
  }

  /** Which select a `change` event comes from. */
  datatype Select = StatusSelect | AgeSelect | SortSelect

  /** The controls with one select set to a new value. */
  function WithSelect(c: Controls, which: Select, value: string): (r: Controls)
    ensures r.searchInput == c.searchInput
    ensures which == StatusSelect ==> r.statusFilter == Some(value) && r.ageFilter == c.ageFilter && r.sortBy == c.sortBy
    ensures which == AgeSelect ==> r.ageFilter == Some(value) && r.statusFilter == c.statusFilter && r.sortBy == c.sortBy
    ensures which == SortSelect ==> r.sortBy == Some(value) && r.statusFilter == c.statusFilter && r.ageFilter == c.ageFilter
  {
    match which
    case StatusSelect => c.(statusFilter := Some(value))
    case AgeSelect => c.(ageFilter := Some(value))
    case SortSelect => c.(sortBy := Some(value))
  }

  /** The page: the elements it finds, and the state its handlers change. */
  class Page {
    /** `patientsData`, which nothing reassigns. */
    const directory: seq<Patient>
    /** The `data-mrn` of every `.patient-card` in the grid, in document order. */
    const cardMrns: seq<string>
    /** Whether each card is displayed. */
    const cardShown: array<bool>
    /** Which of the elements the handlers look up are on the page. */
    const hasGrid: bool
    const hasEmptyState: bool
    const hasSearchClear: bool
    const hasOverlay: bool
    const hasModal: bool
    /** Which elements of the modal header exist. */
    const headerElements: HeaderElements
    /** Whether `#modal-avatar` exists; `showPatientProfile` does not check it. */
    const hasAvatarBox: bool

    var currentPatients: seq<Patient>
    var selectedPatient: Option<Patient>
    var gridShown: bool
    var emptyStateShown: bool
    /** The search-clear button is displayed. */
    var clearShown: bool
    /** The values of the search box and the three selects (`None` for a missing one). */
    var controls: Controls
    /** The overlay is displayed and not `aria-hidden`. */
    var modalOpen: bool
    /** `document.body.style.overflow` is `hidden`. */
    var scrollLocked: bool
    /** What the modal header shows. */
    var header: Header

    predicate Valid()
      reads this
    {
      cardShown.Length == |cardMrns|
    }

    /** The state at load: `currentPatients = [...patientsData]`, no selection, every card displayed. */
    constructor (directory: seq<Patient>, cardMrns: seq<string>, controls: Controls,
                 hasGrid: bool, hasEmptyState: bool, hasSearchClear: bool, hasOverlay: bool, hasModal: bool,
                 headerElements: HeaderElements, hasAvatarBox: bool, header: Header)
      ensures Valid()
      ensures this.directory == directory && this.cardMrns == cardMrns && this.controls == controls
      ensures this.hasGrid == hasGrid && this.hasEmptyState == hasEmptyState && this.hasSearchClear == hasSearchClear
      ensures this.hasOverlay == hasOverlay && this.hasModal == hasModal
      ensures this.headerElements == headerElements && this.hasAvatarBox == hasAvatarBox && this.header == header
      ensures currentPatients == directory && selectedPatient.None? && !modalOpen && !scrollLocked
      ensures fresh(cardShown) && forall k :: 0 <= k < cardShown.Length ==> cardShown[k]
    {
      this.directory := directory;
      this.cardMrns := cardMrns;
      this.controls := controls;
      this.hasGrid := hasGrid;
      this.hasEmptyState := hasEmptyState;
      this.hasSearchClear := hasSearchClear;
      this.hasOverlay := hasOverlay;
      this.hasModal := hasModal;
      this.headerElements := headerElements;
      this.hasAvatarBox := hasAvatarBox;
      cardShown := new bool[|cardMrns|](k => true);
      currentPatients := directory;
      selectedPatient := None;
      gridShown := true;
      emptyStateShown := false;
      clearShown := false;
      modalOpen := false;
      scrollLocked := false;
      this.header := header;
    }

    /** The card `k` is displayed iff some current record has its MRN. */
    predicate CardsShowCurrent()
      requires Valid()
      reads this, cardShown
    {
      forall k :: 0 <= k < cardShown.Length ==> (cardShown[k] <==> cardMrns[k] in MrnsOf(currentPatients))
    }

    /** The card `k` is displayed iff its MRN is that of a record the filter
        keeps, that is (`FilteredMrns`) iff some record of the directory with
        its MRN satisfies `q`. */
    predicate CardsShowMatching(q: Query)
      requires Valid()
      reads this, cardShown
    {
      forall k :: 0 <= k < cardShown.Length ==> (cardShown[k] <==> cardMrns[k] in MrnsOf(Filter(directory, q)))
    }

    /** What `renderPatients` leaves on a page with a grid after `q` was applied:
        with no current record the grid is hidden and the empty state shown;
        otherwise the grid is shown, the empty state hidden, and card `k` is
        displayed iff some current record has its MRN, that is iff a record of
        the directory with its MRN matches `q`. */
    predicate Rendered(q: Query)
      requires Valid()
      reads this, cardShown
    {
      hasGrid ==>
        (currentPatients == [] ==> !gridShown && (hasEmptyState ==> emptyStateShown))
        && (currentPatients != [] ==> gridShown && CardsShowCurrent() && CardsShowMatching(q)
                                      && (hasEmptyState ==> !emptyStateShown))
    }

    /** `renderPatients`: with no current record the grid is hidden and the
        empty state shown; otherwise the empty state is hidden, the grid shown,
        and a card is displayed iff its MRN is that of a current record. */
    method RenderPatients()
      requires Valid()
      modifies this`gridShown, this`emptyStateShown, cardShown
      ensures !hasGrid ==> gridShown == old(gridShown) && emptyStateShown == old(emptyStateShown)
      ensures !hasGrid || currentPatients == [] ==> cardShown[..] == old(cardShown[..])
      ensures hasGrid && currentPatients == [] ==> !gridShown
      ensures hasGrid && currentPatients == [] && hasEmptyState ==> emptyStateShown
      ensures hasGrid && currentPatients != [] ==> gridShown && CardsShowCurrent()
      ensures hasGrid && currentPatients != [] && hasEmptyState ==> !emptyStateShown
      ensures !hasEmptyState ==> emptyStateShown == old(emptyStateShown)
    {
      if !hasGrid {
        return;
      }
      if |currentPatients| == 0 {
        gridShown := false;
        if hasEmptyState {
          emptyStateShown := true;
        }
        return;
      }
      if hasEmptyState {
        emptyStateShown := false;
      }
      gridShown := true;
      var current := MrnsOf(currentPatients);
      // Every existing card: shown iff a current record has its MRN.
      var k := 0;
      while k < cardShown.Length
        modifies cardShown
        invariant 0 <= k <= cardShown.Length
        invariant forall j :: 0 <= j < k ==> (cardShown[j] <==> cardMrns[j] in current)
      {
        cardShown[k] := FindByMrn(currentPatients, cardMrns[k]).Some?;
        k := k + 1;
      }
      // Every current record: its first card is shown.
      var i := 0;
      while i < |currentPatients|
        modifies cardShown
        invariant 0 <= i <= |currentPatients|
        invariant forall j :: 0 <= j < cardShown.Length ==> (cardShown[j] <==> cardMrns[j] in current)
      {
        var card := FirstIndexOf(cardMrns, currentPatients[i].mrn);
        if card.Some? {
          assert cardMrns[card.value] == current[i];
          cardShown[card.value] := true;
        }
        i := i + 1;
      }
    }

    /** `filterPatients`: the current records become the directory filtered
        and sorted by the controls, and are rendered. A card is then displayed
        iff some record of the directory with its MRN matches the query. */
    method FilterPatients()
      requires Valid()
      modifies this`currentPatients, this`gridShown, this`emptyStateShown, cardShown
      ensures currentPatients == ApplyQuery(directory, QueryOf(controls))
      ensures hasGrid && currentPatients != [] ==> gridShown && CardsShowCurrent()
      ensures hasGrid && currentPatients != [] ==> CardsShowMatching(QueryOf(controls))
      ensures hasGrid && currentPatients == [] ==> !gridShown && (hasEmptyState ==> emptyStateShown)
      ensures hasGrid && currentPatients != [] && hasEmptyState ==> !emptyStateShown
      ensures !hasGrid ==> gridShown == old(gridShown) && emptyStateShown == old(emptyStateShown)
      ensures !hasGrid ==> cardShown[..] == old(cardShown[..])
      ensures Rendered(QueryOf(controls))
    {
      ShowQuery(QueryOf(controls));
    }

    /** The body of `filterPatients` once the query has been read from the controls. */
    method ShowQuery(q: Query)
      requires Valid()
      modifies this`currentPatients, this`gridShown, this`emptyStateShown, cardShown
      ensures currentPatients == ApplyQuery(directory, q)
      ensures hasGrid && currentPatients != [] ==> gridShown && CardsShowCurrent()
      ensures hasGrid && currentPatients != [] ==> CardsShowMatching(q)
      ensures hasGrid && currentPatients == [] ==> !gridShown && (hasEmptyState ==> emptyStateShown)
      ensures hasGrid && currentPatients != [] && hasEmptyState ==> !emptyStateShown
      ensures !hasGrid ==> gridShown == old(gridShown) && emptyStateShown == old(emptyStateShown)
      ensures !hasGrid ==> cardShown[..] == old(cardShown[..])
      ensures Rendered(q)
    {
      currentPatients := ApplyQuery(directory, q);
      RenderPatients();
      if hasGrid && currentPatients != [] {
        var shown := cardShown[..];
        assert forall k :: 0 <= k < |cardMrns| ==> (shown[k] <==> cardMrns[k] in MrnsOf(ApplyQuery(directory, q)));
        CardsOfResult(directory, q, cardMrns, shown);
        assert forall k :: 0 <= k < cardShown.Length ==> cardShown[k] == shown[k];
      }
    }

    /** The `input` handler of the search box: the clear button is shown iff the box is not empty. */
    method OnSearchInput(value: string)
      requires Valid() && controls.searchInput.Some?
      modifies this`controls, this`clearShown, this`currentPatients, this`gridShown, this`emptyStateShown, cardShown
      ensures controls == old(controls).(searchInput := Some(value))
      ensures hasSearchClear ==> (clearShown <==> value != [])
      ensures !hasSearchClear ==> clearShown == old(clearShown)
      ensures currentPatients == ApplyQuery(directory, QueryOf(controls))
      ensures Rendered(QueryOf(controls))
      ensures !hasGrid ==> gridShown == old(gridShown) && emptyStateShown == old(emptyStateShown)
      ensures !hasGrid ==> cardShown[..] == old(cardShown[..])
    {
      if hasSearchClear {
        clearShown := |value| > 0;
      }
      SearchFor(value);
    }

    /** The search box now holds `value`, and `filterPatients` runs on it. */
    method SearchFor(value: string)
      requires Valid()
      modifies this`controls, this`currentPatients, this`gridShown, this`emptyStateShown, cardShown
      ensures controls == old(controls).(searchInput := Some(value))
      ensures currentPatients == ApplyQuery(directory, QueryOf(controls))
      ensures Rendered(QueryOf(controls))
      ensures !hasGrid ==> gridShown == old(gridShown) && emptyStateShown == old(emptyStateShown)
      ensures !hasGrid ==> cardShown[..] == old(cardShown[..])
    {
      controls := controls.(searchInput := Some(value));
      FilterPatients();
    }

    /** The `click` handler of the search-clear button, which exists only when the button does. */
    method OnClearSearch()
      requires Valid() && hasSearchClear
      modifies this`controls, this`clearShown, this`currentPatients, this`gridShown, this`emptyStateShown, cardShown
      ensures old(controls).searchInput.None? ==> controls == old(controls) && clearShown == old(clearShown)
      ensures old(controls).searchInput.None? ==> currentPatients == old(currentPatients)
      ensures old(controls).searchInput.Some? ==> controls == old(controls).(searchInput := Some([])) && !clearShown
      ensures old(controls).searchInput.Some? ==> currentPatients == ApplyQuery(directory, QueryOf(controls))
      ensures old(controls).searchInput.Some? ==> Rendered(QueryOf(controls))
      ensures old(controls).searchInput.None? || !hasGrid ==>
        gridShown == old(gridShown) && emptyStateShown == old(emptyStateShown) && cardShown[..] == old(cardShown[..])
    {
      if controls.searchInput.Some? {
        controls := controls.(searchInput := Some([]));
        clearShown := false;
        FilterPatients();
      }
    }

    /** The `change` handler of an existing select. */
    method OnSelectChange(which: Select, value: string)
      requires Valid()
      requires which == StatusSelect ==> controls.statusFilter.Some?
      requires which == AgeSelect ==> controls.ageFilter.Some?
      requires which == SortSelect ==> controls.sortBy.Some?
      modifies this`controls, this`currentPatients, this`gridShown, this`emptyStateShown, cardShown
      ensures controls == WithSelect(old(controls), which, value)
      ensures currentPatients == ApplyQuery(directory, QueryOf(controls))
      ensures Rendered(QueryOf(controls))
      ensures !hasGrid ==> gridShown == old(gridShown) && emptyStateShown == old(emptyStateShown)
      ensures !hasGrid ==> cardShown[..] == old(cardShown[..])
    {
      controls := WithSelect(controls, which, value);
      FilterPatients();
    }

    /** The "Reset" button: every filter back to its default, so the current
        records are the whole directory, sorted by name. */
    method OnReset()
      requires Valid()
      modifies this`controls, this`clearShown, this`currentPatients, this`gridShown, this`emptyStateShown, cardShown
      ensures controls == ResetControls(old(controls))
      ensures hasSearchClear ==> !clearShown
      ensures !hasSearchClear ==> clearShown == old(clearShown)
      ensures currentPatients == SortPatients(directory, "name")
      ensures multiset(currentPatients) == multiset(directory) && Sorted("name", currentPatients)
      ensures Rendered(Query([], "all", "all", "name"))
      ensures !hasGrid ==> gridShown == old(gridShown) && emptyStateShown == old(emptyStateShown)
      ensures !hasGrid ==> cardShown[..] == old(cardShown[..])
    {
      controls := ResetControls(controls);
      if hasSearchClear {
        clearShown := false;
      }
      var q := QueryOf(controls);
      assert q == Query([], "all", "all", "name");
      FilterWithoutCriteria(directory, "name");
      SortPatientsSorted(directory, "name");
      FilterPatients();
    }

    /** `showPatientProfile(p)`: the slot is set first; nothing else happens
        unless the overlay and the modal exist. Then each header element that
        exists shows the record, and the modal is opened and the page locked.
        When `#modal-avatar-initials` exists but `#modal-avatar` does not,
        reading the latter's style throws right after the initials are
        written, and the rest of the handler does not run. */
    method ShowPatientProfile(p: Patient)
      modifies this`selectedPatient, this`header, this`modalOpen, this`scrollLocked
      ensures selectedPatient == Some(p)
      ensures !(hasOverlay && hasModal) ==> header == old(header) && modalOpen == old(modalOpen) && scrollLocked == old(scrollLocked)
      ensures hasOverlay && hasModal && headerElements.avatar && !hasAvatarBox ==>
        header == old(header).(initials := WordStarts(p.name, true))
        && modalOpen == old(modalOpen) && scrollLocked == old(scrollLocked)
      ensures hasOverlay && hasModal && !(headerElements.avatar && !hasAvatarBox) ==>
        header == UpdateHeader(old(header), headerElements, p) && modalOpen && scrollLocked
    {
      selectedPatient := Some(p);
      if !hasOverlay || !hasModal {
        return;
      }
      if headerElements.avatar && !hasAvatarBox {
        InitialsAreWordStarts(p.name);
        header := header.(initials := Initials(p.name));
        return;
      }
      header := UpdateHeader(header, headerElements, p);
      modalOpen := true;
      scrollLocked := true;
    }

    /** `closePatientModal`: does nothing without the overlay; otherwise hides it, unlocks the page and clears the slot. */
    method ClosePatientModal()
      modifies this`selectedPatient, this`modalOpen, this`scrollLocked
      ensures !hasOverlay ==> selectedPatient == old(selectedPatient) && modalOpen == old(modalOpen) && scrollLocked == old(scrollLocked)
      ensures hasOverlay ==> selectedPatient.None? && !modalOpen && !scrollLocked
    {
      if !hasOverlay {
        return;
      }
      modalOpen := false;
      scrollLocked := false;
      selectedPatient := None;
    }

    /** A click on card `k`, on its action button `action` or, when `action` is `None`, on the card itself. */
    method OnCardClick(k: nat, action: Option<string>)
      requires Valid() && k < |cardMrns|
      modifies this`selectedPatient, this`header, this`modalOpen, this`scrollLocked
      ensures var p := FindByMrn(directory, cardMrns[k]);
        if p.Some? && (action.None? || action == Some("view")) then
          && selectedPatient == p
          && (hasOverlay && hasModal && !(headerElements.avatar && !hasAvatarBox) ==>
                header == UpdateHeader(old(header), headerElements, p.value) && modalOpen && scrollLocked)
          && (hasOverlay && hasModal && headerElements.avatar && !hasAvatarBox ==>
                header == old(header).(initials := WordStarts(p.value.name, true))
                && modalOpen == old(modalOpen) && scrollLocked == old(scrollLocked))
          && (!(hasOverlay && hasModal) ==>
                header == old(header) && modalOpen == old(modalOpen) && scrollLocked == old(scrollLocked))
        else
          selectedPatient == old(selectedPatient) && header == old(header) && modalOpen == old(modalOpen)
          && scrollLocked == old(scrollLocked)
    {
      var p := FindByMrn(directory, cardMrns[k]);
      if action.Some? {
        if action.value == "view" && p.Some? {
          ShowPatientProfile(p.value);
        }
        // "edit" and "more" only log to the console.
      } else if p.Some? {
        ShowPatientProfile(p.value);
      }
    }

    /** The document `keydown` handler: Escape closes the modal only while it is displayed. */
    method OnKeyDown(key: string)
      modifies this`selectedPatient, this`modalOpen, this`scrollLocked
      ensures key == "Escape" && hasOverlay && old(modalOpen) ==> selectedPatient.None? && !modalOpen && !scrollLocked
      ensures !(key == "Escape" && hasOverlay && old(modalOpen)) ==>
        selectedPatient == old(selectedPatient) && modalOpen == old(modalOpen) && scrollLocked == old(scrollLocked)
    {
      if key == "Escape" && hasOverlay && modalOpen {
        ClosePatientModal();
      }
    }

    /** A click on the overlay closes the modal only when it lands on the overlay itself, not inside the dialog. */
    method OnOverlayClick(onBackground: bool)
      requires hasOverlay
      modifies this`selectedPatient, this`modalOpen, this`scrollLocked
      ensures onBackground ==> selectedPatient.None? && !modalOpen && !scrollLocked
      ensures !onBackground ==> selectedPatient == old(selectedPatient) && modalOpen == old(modalOpen) && scrollLocked == old(scrollLocked)
    {
      if onBackground {
        ClosePatientModal();
      }
    }

    /** The "Export PDF" button of the modal: exports the selected record, if there is one. */
    method OnExportClick(button: PdfExport.ExportButton, libraryLoaded: bool, isoTimestamp: string,
                         wrap: (string, int) -> nat, activity: seq<string>, billing: seq<string>, fails: bool)
      modifies button
      ensures selectedPatient.None? ==> button.alerts == old(button.alerts) && button.saved == old(button.saved)
      ensures selectedPatient.None? ==> button.disabled == old(button.disabled) && button.caption == old(button.caption)
      ensures selectedPatient.Some? && !libraryLoaded ==>
        button.alerts == old(button.alerts) + [PdfExport.LibraryMissing] && button.saved == old(button.saved)
        && button.disabled == old(button.disabled) && button.caption == old(button.caption)
      ensures selectedPatient.Some? && libraryLoaded && fails ==>
        button.alerts == old(button.alerts) + [PdfExport.GenerationFailed] && button.saved == old(button.saved)
      ensures selectedPatient.Some? && libraryLoaded && !fails ==>
        button.alerts == old(button.alerts)
        && |button.saved| == |old(button.saved)| + 1
        && button.saved[..|old(button.saved)|] == old(button.saved)
        && button.saved[|old(button.saved)|].fileName == PdfExport.FileName(selectedPatient.value.mrn, isoTimestamp)
        && var footers := button.saved[|old(button.saved)|].footers;
           1 <= |footers| <= 1 + PdfExport.BreakChecks(selectedPatient.value.hasCriticalAlert, |activity|, |billing|)
           && |footers| == PdfExport.AfterReport(selectedPatient.value, wrap, activity, billing).pages
           && forall k :: 0 <= k < |footers| ==> footers[k] == PdfLayout.FooterLabel(k + 1, |footers|)
      ensures selectedPatient.Some? && libraryLoaded && button.present ==>
        !button.disabled && button.caption == old(button.caption)
      ensures !button.present ==> button.disabled == old(button.disabled) && button.caption == old(button.caption)
    {
      if selectedPatient.Some? {
        button.Export(selectedPatient.value, libraryLoaded, isoTimestamp, wrap, activity, billing, fails);
      }
    }
  }
}
