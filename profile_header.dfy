/**
  The header of the patient-profile modal filled in by `showPatientProfile`
  (assets/patients.js): the avatar initials, the status badge text, and the
  critical-alert badge and banner.
*/
module ProfileHeader {
  import opened Wrappers
  import opened JsText
  import opened PatientDirectory

  /** `n[0]` of one piece of the name; an empty piece gives `undefined`, which `join` prints as nothing. */
  function FirstChar(piece: string): string {
    if piece == [] then [] else [piece[0]]
  }

  /** The first characters of the pieces, concatenated. */
  function FirstChars(pieces: seq<string>): string {
    if pieces == [] then [] else FirstChar(pieces[0]) + FirstChars(pieces[1..])
  }

  /** `name.split(' ').map(function(n) { return n[0]; }).join('')`. */
  function Initials(name: string): string {
    FirstChars(Split(name, ' '))
  }

  /** Reference definition of the initials: scan the name and keep every
      character that is not a space and follows a space or the start. */
  function WordStarts(s: string, atStart: bool): (r: string)
    ensures |r| <= |s|
    ensures ' ' !in r
  {
    if s == [] then []
    else if s[0] == ' ' then WordStarts(s[1..], true)
    else (if atStart then [s[0]] else []) + WordStarts(s[1..], false)
  }

  lemma {:induction false} WordStartsSplit(s: string, atStart: bool)
    ensures WordStarts(s, atStart)
         == (if atStart then FirstChar(Split(s, ' ')[0]) else []) + FirstChars(Split(s, ' ')[1..])
  {
    if s != [] {
      var rest := Split(s[1..], ' ');
      if s[0] == ' ' {
        WordStartsSplit(s[1..], true);
        assert Split(s, ' ') == [[]] + rest;
        assert FirstChars(rest) == FirstChar(rest[0]) + FirstChars(rest[1..]);
      } else {
        WordStartsSplit(s[1..], false);
        assert Split(s, ' ') == [[s[0]] + rest[0]] + rest[1..];
      }
    }
  }

  /** The initials are exactly the first letters of the space-separated words:
      doubled, leading or trailing spaces contribute nothing. */
  lemma InitialsAreWordStarts(name: string)
    ensures Initials(name) == WordStarts(name, true)
    ensures |Initials(name)| <= |name| && ' ' !in Initials(name)
  {
    WordStartsSplit(name, true);
    assert FirstChars(Split(name, ' ')) == FirstChar(Split(name, ' ')[0]) + FirstChars(Split(name, ' ')[1..]);
  }

  /** The badge texts of the three statuses the directory names. */
  const KnownStatusLabels: map<string, string> :=
    map["active" := "Active", "in-queue" := "In Queue", "admitted" := "Admitted"]

  /** The status badge text: the table above for a known status, "Discharged" for any other. */
  function StatusLabel(status: string): (text: string)
    ensures status in KnownStatusLabels ==> text == KnownStatusLabels[status]
    ensures status !in KnownStatusLabels ==> text == "Discharged"
  {
    if status == "active" then "Active"
    else if status == "in-queue" then "In Queue"
    else if status == "admitted" then "Admitted"
    else "Discharged"
  }

  /** The message of the alert banner: the record's alert text, or a generic one when it has none. */
  function AlertMessage(p: Patient): (m: string)
    ensures m != []
    ensures p.alert.Some? && p.alert.value != [] ==> m == p.alert.value
    ensures !(p.alert.Some? && p.alert.value != []) ==> m == "Critical medical alert"
  {
    if p.alert.Some? && p.alert.value != [] then p.alert.value else "Critical medical alert"
  }

  /** What the modal header shows: the text of each of its elements, the
      two badges, and whether the alert banner is displayed. */
  datatype Header = Header(
    initials: string,
    name: string,
    mrnLine: string,
    ageLine: string,
    gender: string,
    statusLabel: string,
    criticalBadge: bool,
    alertShown: bool,
    alertHtml: string)

  /** The markup in front of the alert message in the banner. */
  const AlertPrefix: string := "<strong>Critical Allergy Alert:</strong> "

  /** The header of a page on which every element exists, for a record with a
      critical alert: each element shows its field of the record. */
  function HeaderFor(p: Patient): (h: Header)
    ensures h.initials == WordStarts(p.name, true)
    ensures h.name == p.name && h.gender == p.gender
    ensures h.mrnLine == "MRN: " + p.mrn
    ensures h.ageLine == NatToString(p.age) + " years old"
    ensures h.statusLabel == StatusLabel(p.status)
    ensures h.statusLabel in {"Active", "In Queue", "Admitted", "Discharged"}
    ensures h.alertShown <==> p.hasCriticalAlert
    ensures h.criticalBadge <==> p.hasCriticalAlert
    ensures h.alertHtml == AlertPrefix + AlertMessage(p)
  {
    InitialsAreWordStarts(p.name);
    Header(
      Initials(p.name),
      p.name,
      "MRN: " + p.mrn,
      NatToString(p.age) + " years old",
      p.gender,
      StatusLabel(p.status),
      p.hasCriticalAlert,
      p.hasCriticalAlert,
      AlertPrefix + AlertMessage(p))
  }

  /** Which of the header's elements are on the page: `#modal-avatar-initials`,
      `#modal-patient-name`, `#modal-mrn`, `#modal-age`, `#modal-gender`,
      `#modal-badges`, `#modal-alert` and `#modal-alert-text`. */
  datatype HeaderElements = HeaderElements(
    avatar: bool, name: bool, mrn: bool, age: bool, gender: bool, badges: bool, alert: bool, alertText: bool)

  /** Every element of the header exists. */
  predicate AllPresent(e: HeaderElements) {
    e.avatar && e.name && e.mrn && e.age && e.gender && e.badges && e.alert && e.alertText
  }

  /** `showPatientProfile` filling in the header `h` for `p`: each element
      that exists takes the record's value and a missing one keeps what it
      showed. The banner is touched only when both of its elements exist, and
      its text is rewritten only for a critical alert. */
  function UpdateHeader(h: Header, e: HeaderElements, p: Patient): (r: Header)
    ensures r.initials == (if e.avatar then WordStarts(p.name, true) else h.initials)
    ensures r.name == (if e.name then p.name else h.name)
    ensures r.mrnLine == (if e.mrn then "MRN: " + p.mrn else h.mrnLine)
    ensures r.ageLine == (if e.age then NatToString(p.age) + " years old" else h.ageLine)
    ensures r.gender == (if e.gender then p.gender else h.gender)
    ensures e.badges ==> r.statusLabel == StatusLabel(p.status) && (r.criticalBadge <==> p.hasCriticalAlert)
    ensures !e.badges ==> r.statusLabel == h.statusLabel && r.criticalBadge == h.criticalBadge
    ensures e.alert && e.alertText ==> (r.alertShown <==> p.hasCriticalAlert)
    ensures !(e.alert && e.alertText) ==> r.alertShown == h.alertShown
    ensures e.alert && e.alertText && p.hasCriticalAlert ==> r.alertHtml == AlertPrefix + AlertMessage(p)
    ensures !(e.alert && e.alertText && p.hasCriticalAlert) ==> r.alertHtml == h.alertHtml
  {
    InitialsAreWordStarts(p.name);
    var banner := e.alert && e.alertText;
    Header(
      if e.avatar then Initials(p.name) else h.initials,
      if e.name then p.name else h.name,
      if e.mrn then "MRN: " + p.mrn else h.mrnLine,
      if e.age then NatToString(p.age) + " years old" else h.ageLine,
      if e.gender then p.gender else h.gender,
      if e.badges then StatusLabel(p.status) else h.statusLabel,
      if e.badges then p.hasCriticalAlert else h.criticalBadge,
      if banner then p.hasCriticalAlert else h.alertShown,
      if banner && p.hasCriticalAlert then AlertPrefix + AlertMessage(p) else h.alertHtml)
  }

  /** On a page with every element, the header shows the record: it is
      `HeaderFor(p)`, except that without a critical alert the hidden banner
      keeps its old text. */
  lemma UpdateHeaderAllPresent(h: Header, e: HeaderElements, p: Patient)
    requires AllPresent(e)
    ensures p.hasCriticalAlert ==> UpdateHeader(h, e, p) == HeaderFor(p)
    ensures !p.hasCriticalAlert ==> UpdateHeader(h, e, p) == HeaderFor(p).(alertHtml := h.alertHtml)
  {
  }

  /** Showing the same record twice leaves the header as showing it once. */
  lemma UpdateHeaderIdempotent(h: Header, e: HeaderElements, p: Patient)
    ensures UpdateHeader(UpdateHeader(h, e, p), e, p) == UpdateHeader(h, e, p)
  {
  }

  /** Once a record has been shown, showing it again after another record
      leaves every element that exists as if only it had been shown. */
  lemma UpdateHeaderLastWins(h: Header, e: HeaderElements, p: Patient, q: Patient)
    requires p.hasCriticalAlert && q.hasCriticalAlert
    ensures UpdateHeader(UpdateHeader(h, e, p), e, q) == UpdateHeader(h, e, q)
  {
  }
}
