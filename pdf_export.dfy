/**
  `exportPatientToPDF` (assets/patients.js) as a whole: the order in which the
  report's sections move the layout cursor, the footer written on every page,
  the file name, and the state of the export button around the attempt.
*/
module PdfExport {
  import opened Wrappers
  import opened JsText
  import opened PatientDirectory
  import opened PdfLayout

  /** The hard-coded date of birth of the identification block. */
  const DateOfBirth: string := "March 14, 1991"

  /** The values of the medical-history rows. */
  const MedicalValues: seq<string> := ["O+", "165 cm", "58 kg", "21.3 (Normal)"]

  /** One entry of the hard-coded allergy list. */
  datatype Allergy = Allergy(name: string, severity: string, reaction: string, documented: string, verified: string)

  const Allergies: seq<Allergy> := [
    Allergy("Penicillin", "Critical", "Anaphylaxis, severe hives, difficulty breathing", "2018-05-12", "Dr. Maria Santos"),
    Allergy("Sulfa Drugs", "Moderate", "Skin rash, itching", "2020-11-03", "Dr. Juan Reyes"),
    Allergy("Shellfish", "Mild", "Mild digestive discomfort", "2015-08-20", "Patient self-reported")
  ]

  /** The number of rows of the hard-coded tables. */
  const ConditionRows: nat := 2
  const MedicationRows: nat := 2
  const EncounterRows: nat := 2
  const LabRows: nat := 2
  const TransactionRows: nat := 2

  function Max(a: int, b: int): (m: int)
    ensures m >= a && m >= b && (m == a || m == b)
  {
    if a >= b then a else b
  }

  /** A key-value pair in a `forEach` loop: `checkPageBreak(8)`, then `addKeyValue` advances by 5 per line. */
  function KeyValueRow(lines: nat): (r: Row)
    ensures r.height == RowCheck && r.advance == LineHeight * lines
  {
    Row(RowCheck, LineHeight * lines)
  }

  /** The rows of a full-width list of key-value pairs whose printed values are `shown`. */
  function ListRows(shown: seq<string>, wrap: (string, int) -> nat): (r: seq<Row>)
    ensures |r| == |shown|
    ensures forall i :: 0 <= i < |r| ==> r[i] == KeyValueRow(wrap(shown[i], WideWidth))
  {
    seq(|shown|, i requires 0 <= i < |shown| => KeyValueRow(wrap(shown[i], WideWidth)))
  }

  /** `n` table rows: `checkPageBreak(8)`, then 6 down. */
  function TableRows(n: nat): (r: seq<Row>)
    ensures |r| == n
    ensures forall i :: 0 <= i < n ==> r[i] == Row(RowCheck, TableRowHeight)
  {
    seq(n, i => Row(RowCheck, TableRowHeight))
  }

  /** One allergy: `checkPageBreak(20)`, the name line, three key-value pairs, 3 and 5 below them. */
  function AllergyRow(a: Allergy, wrap: (string, int) -> nat): (r: Row)
    ensures r.height == 20
  {
    var lines := wrap(Detail(a.reaction), AllergyWidth) + wrap(Detail(a.documented), AllergyWidth)
      + wrap(Detail(a.verified), AllergyWidth);
    Row(20, 6 + LineHeight * lines + 3 + 5)
  }

  function AllergyRows(wrap: (string, int) -> nat): (r: seq<Row>)
    ensures |r| == |Allergies|
  {
    seq(|Allergies|, i requires 0 <= i < |Allergies| => AllergyRow(Allergies[i], wrap))
  }

  /** `cleanText` applied to each value before `addKeyValue` prints it. */
  function Details(values: seq<string>): (r: seq<string>)
    ensures |r| == |values|
    ensures forall i :: 0 <= i < |r| ==> r[i] == Detail(values[i])
  {
    seq(|values|, i requires 0 <= i < |values| => Detail(values[i]))
  }

  /** How many times the report calls `checkPageBreak`. */
  function BreakChecks(alert: bool, activity: nat, billing: nat): nat {
    (if alert then 1 else 0) + 26 + activity + billing
  }

  /** How far below `y` the taller column of the identification block ends,
      when the age row prints `ageText`. */
  function IdentificationHeight(ageText: string, p: Patient, wrap: (string, int) -> nat): (h: nat)
  {
    var left := wrap(ageText, ColumnWidth) + wrap(Detail(p.gender), ColumnWidth)
      + wrap(Shown(DateOfBirth), ColumnWidth) + wrap(Detail(Capitalize(p.status)), ColumnWidth);
    var right := wrap(Detail(p.phone), ColumnWidth) + wrap(Detail(OrNotAvailable(p.email)), ColumnWidth)
      + wrap(Detail(OrNotAvailable(p.address)), ColumnWidth);
    LineHeight * Max(left, right)
  }

  /** For every positive age the block as written is exactly as tall as with the corrected age row. */
  lemma IdentificationHeightAgrees(p: Patient, wrap: (string, int) -> nat)
    requires p.age != 0
    ensures IdentificationHeight(AgeFieldAsWritten(p.age), p, wrap) == IdentificationHeight(AgeField(p.age), p, wrap)
  {
    AgeFieldAsWrittenAgrees(p.age);
  }

  /** The body of the `try` block up to the footer: every section in order.
      `activity` and `billing` are the formatted values of the recent-activity
      and billing rows. The document has at least one page, at most one more
      per `checkPageBreak`, and the cursor never rises above the top margin.
      The age row prints `cleanText(patient.age) + ' years old'`, as written. */
  method LayOutReport(p: Patient, wrap: (string, int) -> nat, activity: seq<string>, billing: seq<string>)
    returns (doc: PdfCursor)
    ensures fresh(doc)
    ensures doc.State() == AfterReport(p, wrap, activity, billing)
    ensures Margin <= doc.y
    ensures 1 <= doc.pages <= 1 + BreakChecks(p.hasCriticalAlert, |activity|, |billing|)
  {
    doc := new PdfCursor();
    LayOutIdentification(doc, IdentificationHeight(AgeFieldAsWritten(p.age), p, wrap), p.hasCriticalAlert);
    LayOutClinical(doc, wrap, activity);
    LayOutBilling(doc, billing, wrap);
  }

  /** Where the report leaves the cursor, from the top of its first page. */
  function AfterReport(p: Patient, wrap: (string, int) -> nat, activity: seq<string>, billing: seq<string>): (r: Cursor)
    ensures Margin <= r.y
    ensures 1 <= r.pages <= 1 + BreakChecks(p.hasCriticalAlert, |activity|, |billing|)
  {
    var h := IdentificationHeight(AgeFieldAsWritten(p.age), p, wrap);
    var a := AfterIdentification(Cursor(Margin, 1), h, p.hasCriticalAlert);
    AfterBilling(AfterClinical(a, wrap, activity), billing, wrap)
  }

  /** Where the identification block leaves the cursor that starts at `c`
      when its taller column is `h` high: the fixed rows, the columns, and with
      an alert the banner's `checkPageBreak(12)` and its 15 below. */
  function AfterIdentification(c: Cursor, h: nat, alert: bool): (r: Cursor)
    ensures !alert ==> r == Cursor(c.y + 63 + h + 13, c.pages)
    ensures alert && !Overflows(c.y + 63 + h, 12) ==> r == Cursor(c.y + 63 + h + 15 + 13, c.pages)
    ensures alert && Overflows(c.y + 63 + h, 12) ==> r == Cursor(Margin + 15 + 13, c.pages + 1)
  {
    var top := c.y + 25 + 8 + 5 + SectionHeaderHeight + 12 + h + 5;
    if alert then
      var d := BreakCheck(Cursor(top, c.pages), 12);
      Cursor(d.y + 15 + 5 + 8, d.pages)
    else
      Cursor(top + 5 + 8, c.pages)
  }

  /** The hospital header, the metadata line and PATIENT IDENTIFICATION with
      its two columns, whose taller one is `h` high, and the alert banner. */
  method LayOutIdentification(doc: PdfCursor, h: nat, alert: bool)
    modifies doc
    ensures doc.State() == AfterIdentification(old(doc.State()), h, alert)
    ensures old(doc.pages) <= doc.pages <= old(doc.pages) + (if alert then 1 else 0)
    ensures Margin <= old(doc.y) ==> Margin <= doc.y
  {
    doc.Skip(25 + 8 + 5);
    doc.AddSectionHeader();
    doc.Skip(12);
    doc.Skip(h + 5);
    if alert {
      var _ := doc.CheckPageBreak(12);
      doc.Skip(15);
    }
    doc.Skip(5 + 8);
  }

  /** Where RECENT ACTIVITY, MEDICAL HISTORY and ALLERGIES leave the cursor that starts at `c`. */
  function AfterClinical(c: Cursor, wrap: (string, int) -> nat, activity: seq<string>): (r: Cursor)
    ensures c.pages <= r.pages <= c.pages + 13 + |activity|
    ensures Margin <= c.y ==> Margin <= r.y
  {
    AfterClinicalRows(c, ListRows(Details(activity), wrap), ListRows(MedicalShown(), wrap), TableRows(ConditionRows),
      AllergyRows(wrap))
  }

  /** The same, for the rows of the activity list, the medical-history list, the conditions table and the allergies. */
  function AfterClinicalRows(c: Cursor, activity: seq<Row>, medical: seq<Row>, conditions: seq<Row>,
                             allergies: seq<Row>): (r: Cursor)
    ensures c.pages <= r.pages <= c.pages + 4 + |activity| + |medical| + |conditions| + |allergies|
    ensures Margin <= c.y ==> Margin <= r.y
  {
    var a := AfterSection(c, 30, 0, activity);
    var b := AfterSection(Cursor(a.y + 5 + 8, a.pages), 50, 0, medical);
    var e := AfterTable(Cursor(b.y + 5, b.pages), 15, conditions);
    var f := AfterSection(Cursor(e.y + 5 + 8, e.pages), 50, 0, allergies);
    Cursor(f.y + 5 + 8, f.pages)
  }

  /** Where the medication, encounter, lab and billing sections leave the cursor that starts at `c`. */
  function AfterBilling(c: Cursor, billing: seq<string>, wrap: (string, int) -> nat): (r: Cursor)
    ensures c.pages <= r.pages <= c.pages + 13 + |billing|
    ensures Margin <= c.y ==> Margin <= r.y
  {
    AfterBillingRows(c, TableRows(MedicationRows), TableRows(EncounterRows), TableRows(LabRows),
      ListRows(Details(billing), wrap), TableRows(TransactionRows))
  }

  /** The same, for the rows of the three tables, the billing list and the transactions table. */
  function AfterBillingRows(c: Cursor, medications: seq<Row>, encounters: seq<Row>, labs: seq<Row>,
                            billing: seq<Row>, transactions: seq<Row>): (r: Cursor)
    ensures c.pages <= r.pages <= c.pages + 5 + |medications| + |encounters| + |labs| + |billing| + |transactions|
    ensures Margin <= c.y ==> Margin <= r.y
  {
    var d := AfterRecords(c, medications, encounters, labs);
    var e := AfterSection(d, 40, 0, billing);
    AfterTable(Cursor(e.y + 5, e.pages), 20, transactions)
  }

  /** Where CURRENT MEDICATIONS, RECENT ENCOUNTERS and LAB RESULTS, whose tables have
      the rows given, leave the cursor that starts at `c`. */
  function AfterRecords(c: Cursor, medications: seq<Row>, encounters: seq<Row>, labs: seq<Row>): (r: Cursor)
    ensures c.pages <= r.pages <= c.pages + 3 + |medications| + |encounters| + |labs|
    ensures Margin <= c.y ==> Margin <= r.y
  {
    var a := AfterSection(c, 40, 6, medications);
    var b := AfterSection(Cursor(a.y + 5 + 8, a.pages), 30, 6, encounters);
    var d := AfterSection(Cursor(b.y + 5 + 8, b.pages), 30, 6, labs);
    Cursor(d.y + 5 + 8, d.pages)
  }

  /** RECENT ACTIVITY, MEDICAL HISTORY with the chronic-conditions table, ALLERGIES. */
  method LayOutClinical(doc: PdfCursor, wrap: (string, int) -> nat, activity: seq<string>)
    modifies doc
    ensures doc.State() == AfterClinical(old(doc.State()), wrap, activity)
    ensures old(doc.pages) <= doc.pages <= old(doc.pages) + 13 + |activity|
    ensures Margin <= old(doc.y) ==> Margin <= doc.y
  {
    LayOutClinicalRows(doc, ListRows(Details(activity), wrap), ListRows(MedicalShown(), wrap), TableRows(ConditionRows),
      AllergyRows(wrap));
  }

  /** The same sections, once each list and table has been measured into rows. */
  method LayOutClinicalRows(doc: PdfCursor, activity: seq<Row>, medical: seq<Row>, conditions: seq<Row>,
                            allergies: seq<Row>)
    modifies doc
    ensures doc.State() == AfterClinicalRows(old(doc.State()), activity, medical, conditions, allergies)
  {
    doc.AddSection(30, 0, activity);
    doc.Skip(5 + 8);
    doc.AddSection(50, 0, medical);
    doc.Skip(5);
    doc.AddTable(15, conditions);
    doc.Skip(5 + 8);
    doc.AddSection(50, 0, allergies);
    doc.Skip(5 + 8);
  }

  /** CURRENT MEDICATIONS, RECENT ENCOUNTERS, LAB RESULTS, BILLING INFORMATION with the transactions table. */
  method LayOutBilling(doc: PdfCursor, billing: seq<string>, wrap: (string, int) -> nat)
    modifies doc
    ensures doc.State() == AfterBilling(old(doc.State()), billing, wrap)
    ensures old(doc.pages) <= doc.pages <= old(doc.pages) + 13 + |billing|
    ensures Margin <= old(doc.y) ==> Margin <= doc.y
  {
    LayOutBillingRows(doc, TableRows(MedicationRows), TableRows(EncounterRows), TableRows(LabRows),
      ListRows(Details(billing), wrap), TableRows(TransactionRows));
  }

  /** The same sections, once each table and list has been measured into rows. */
  method LayOutBillingRows(doc: PdfCursor, medications: seq<Row>, encounters: seq<Row>, labs: seq<Row>,
                           billing: seq<Row>, transactions: seq<Row>)
    modifies doc
    ensures doc.State() == AfterBillingRows(old(doc.State()), medications, encounters, labs, billing, transactions)
  {
    LayOutRecords(doc, medications, encounters, labs);
    doc.AddSection(40, 0, billing);
    doc.Skip(5);
    doc.AddTable(20, transactions);
  }

  /** CURRENT MEDICATIONS, RECENT ENCOUNTERS and LAB RESULTS, each a section holding a table. */
  method LayOutRecords(doc: PdfCursor, medications: seq<Row>, encounters: seq<Row>, labs: seq<Row>)
    modifies doc
    ensures doc.State() == AfterRecords(old(doc.State()), medications, encounters, labs)
  {
    doc.AddSection(40, 6, medications);
    doc.Skip(5 + 8);
    doc.AddSection(30, 6, encounters);
    doc.Skip(5 + 8);
    doc.AddSection(30, 6, labs);
    doc.Skip(5 + 8);
  }

  /** What `addKeyValue` prints for the medical-history values, which it is given uncleaned. */
  function MedicalShown(): (r: seq<string>)
    ensures |r| == |MedicalValues|
  {
    seq(|MedicalValues|, i requires 0 <= i < |MedicalValues| => Shown(MedicalValues[i]))
  }

  /** The alert shown when the PDF library is not on the page. */
  const LibraryMissing: string := "PDF export library not loaded. Please refresh the page."
  /** The alert shown when generating the document throws. */
  const GenerationFailed: string := "Error generating PDF. Please try again."
  /** The button caption while the document is generated. */
  const Generating: string := "Generating PDF..."

  /** `'Patient_Profile_' + mrn + '_' + isoString.split('T')[0] + '.pdf'`. */
  function FileName(mrn: string, isoTimestamp: string): (r: string)
    ensures |r| == 21 + |mrn| + |Split(isoTimestamp, 'T')[0]|
    ensures r[..16] == "Patient_Profile_" && r[|r| - 4..] == ".pdf"
  {
    "Patient_Profile_" + mrn + "_" + Split(isoTimestamp, 'T')[0] + ".pdf"
  }

  /** For an ISO timestamp `<date>T<time>` the file name carries the MRN and the date. */
  lemma FileNameOfTimestamp(mrn: string, date: string, time: string)
    requires 'T' !in date
    ensures FileName(mrn, date + "T" + time) == "Patient_Profile_" + mrn + "_" + date + ".pdf"
  {
    SplitFirstPiece(date, 'T', time);
  }

  /** A downloaded document: its file name and the footer of each of its pages. */
  datatype SavedReport = SavedReport(fileName: string, footers: seq<string>)

  /** The `try` block when nothing throws: the sections, then "Page i of N" on each of the N pages,
      then `pdf.save` under the patient's file name. */
  method GenerateReport(p: Patient, isoTimestamp: string, wrap: (string, int) -> nat,
                        activity: seq<string>, billing: seq<string>) returns (r: SavedReport)
    ensures r.fileName == FileName(p.mrn, isoTimestamp)
    ensures 1 <= |r.footers| <= 1 + BreakChecks(p.hasCriticalAlert, |activity|, |billing|)
    ensures |r.footers| == AfterReport(p, wrap, activity, billing).pages
    ensures forall k :: 0 <= k < |r.footers| ==> r.footers[k] == FooterLabel(k + 1, |r.footers|)
  {
    var doc := LayOutReport(p, wrap, activity, billing);
    var footers := FooterLabels(doc.pages);
    r := SavedReport(FileName(p.mrn, isoTimestamp), footers);
  }

  /** The "Export PDF" button and what the user sees of an export. */
  class ExportButton {
    /** Whether `#btn-export-pdf` is on the page. */
    const present: bool
    var disabled: bool
    var caption: string
    /** The `alert` messages shown, oldest first. */
    var alerts: seq<string>
    /** The documents saved, oldest first. */
    var saved: seq<SavedReport>

    constructor (present: bool, caption: string)
      ensures this.present == present && this.caption == caption
      ensures !disabled && alerts == [] && saved == []
    {
      this.present := present;
      this.caption := caption;
      disabled := false;
      alerts := [];
      saved := [];
    }

    /** `exportPatientToPDF(p)`. `libraryLoaded` is `window.jspdf`, `fails`
        says that a drawing call throws; the footers are numbered "Page i of N"
        over all N pages, and the button is enabled again with its old caption
        whether or not generation succeeds. */
    method Export(p: Patient, libraryLoaded: bool, isoTimestamp: string, wrap: (string, int) -> nat,
                  activity: seq<string>, billing: seq<string>, fails: bool)
      modifies this
      ensures !libraryLoaded ==> alerts == old(alerts) + [LibraryMissing]
      ensures !libraryLoaded ==> saved == old(saved) && disabled == old(disabled) && caption == old(caption)
      ensures libraryLoaded && fails ==> alerts == old(alerts) + [GenerationFailed] && saved == old(saved)
      ensures libraryLoaded && !fails ==> alerts == old(alerts) && |saved| == |old(saved)| + 1
      ensures libraryLoaded && !fails ==> saved[..|old(saved)|] == old(saved)
      ensures libraryLoaded && !fails ==> var doc := saved[|old(saved)|];
        && doc.fileName == FileName(p.mrn, isoTimestamp)
        && 1 <= |doc.footers| <= 1 + BreakChecks(p.hasCriticalAlert, |activity|, |billing|)
        && |doc.footers| == AfterReport(p, wrap, activity, billing).pages
        && forall k :: 0 <= k < |doc.footers| ==> doc.footers[k] == FooterLabel(k + 1, |doc.footers|)
      ensures libraryLoaded && present ==> !disabled && caption == old(caption)
      ensures !present ==> disabled == old(disabled) && caption == old(caption)
    {
      if !libraryLoaded {
        alerts := alerts + [LibraryMissing];
        return;
      }
      var original := if present then caption else "";
      if present {
        disabled := true;
        caption := Generating;
      }
      if fails {
        alerts := alerts + [GenerationFailed];
      } else {
        var report := GenerateReport(p, isoTimestamp, wrap, activity, billing);
        saved := saved + [report];
      }
      if present {
        disabled := false;
        caption := original;
      }
    }
  }
}
