/**
  The page layout of `exportPatientToPDF` (assets/patients.js): the vertical
  cursor `yPosition` and the page count that `checkPageBreak` moves, the rows
  that `addKeyValue` and the tables advance it by, the footer loop over every
  page, the text `addKeyValue` prints, and the billing "Outstanding" rule.
  The drawing calls themselves are opaque effects and are not modelled; the
  number of lines `splitTextToSize` wraps a value into is a parameter `wrap`.
*/
module PdfLayout {
  import opened Wrappers
  import opened JsText
  import opened Sanitize
  import opened SanitizeExamples

  /** An A4 page in portrait, in millimetres. */
  const PageWidth: int := 210
  const PageHeight: int := 297
  const Margin: int := 15
  const ContentWidth: int := PageWidth - 2 * Margin

  /** The lowest position text may start at. */
  const Bottom: int := PageHeight - Margin

  /** The height every table and key-value row asks `checkPageBreak` for. */
  const RowCheck: int := 8
  /** What `addKeyValue` advances the cursor by per printed line. */
  const LineHeight: nat := 5
  /** What `addSectionHeader` advances the cursor by. */
  const SectionHeaderHeight: nat := 8
  /** What a table row advances the cursor by. */
  const TableRowHeight: nat := 6

  /** The wrapping widths `addKeyValue` is given: a column of the identification block, a full-width row, an allergy row. */
  const KeyWidth: int := 35
  const ColumnWidth: int := ContentWidth / 2 - KeyWidth - 10
  const WideWidth: int := ContentWidth - KeyWidth - 6
  const AllergyWidth: int := ContentWidth - 25

  // ---------------------------------------------------------------------------
  // The cursor

  /** `yPosition` and the number of pages of the document. */
  datatype Cursor = Cursor(y: int, pages: nat)

  /** The test of `checkPageBreak`: a block of height `h` at `y` would run past the bottom margin. */
  predicate Overflows(y: int, h: int) {
    y + h > Bottom
  }

  /** `checkPageBreak(h)`: start a new page when the block does not fit on this one. */
  function BreakCheck(c: Cursor, h: int): (r: Cursor)
    ensures r.pages == c.pages + 1 <==> Overflows(c.y, h)
    ensures r.pages == c.pages <==> !Overflows(c.y, h)
    ensures r.pages == c.pages ==> r == c
    ensures r.pages != c.pages ==> r.y == Margin
    ensures h <= PageHeight - 2 * Margin ==> !Overflows(r.y, h)
  {
    if Overflows(c.y, h) then Cursor(Margin, c.pages + 1) else c
  }

  /** One row of a `forEach` loop over a table or a list of key-value pairs:
      `checkPageBreak(height)`, then the row moves the cursor down by `advance`. */
  datatype Row = Row(height: int, advance: nat)

  /** The cursor after the rows, in order. */
  function AfterRows(c: Cursor, rows: seq<Row>): Cursor
    decreases |rows|
  {
    if rows == [] then c
    else
      var last := rows[|rows| - 1];
      var d := BreakCheck(AfterRows(c, rows[..|rows| - 1]), last.height);
      Cursor(d.y + last.advance, d.pages)
  }

  /** How far the rows move the cursor when no page break intervenes. */
  function TotalAdvance(rows: seq<Row>): nat
    decreases |rows|
  {
    if rows == [] then 0 else TotalAdvance(rows[..|rows| - 1]) + rows[|rows| - 1].advance
  }

  /** Every row adds at most one page. */
  lemma {:induction false} RowsPageBound(c: Cursor, rows: seq<Row>)
    ensures c.pages <= AfterRows(c, rows).pages <= c.pages + |rows|
    decreases |rows|
  {
    if rows != [] {
      RowsPageBound(c, rows[..|rows| - 1]);
    }
  }

  /** The cursor never rises above the top margin. */
  lemma {:induction false} RowsStayBelowMargin(c: Cursor, rows: seq<Row>)
    ensures Margin <= c.y ==> Margin <= AfterRows(c, rows).y
    decreases |rows|
  {
    if rows != [] {
      RowsStayBelowMargin(c, rows[..|rows| - 1]);
    }
  }

  /** Without a page break the rows move the cursor by their total advance. */
  lemma {:induction false} RowsWithoutBreak(c: Cursor, rows: seq<Row>)
    requires AfterRows(c, rows).pages == c.pages
    ensures AfterRows(c, rows).y == c.y + TotalAdvance(rows)
    decreases |rows|
  {
    if rows != [] {
      var front := rows[..|rows| - 1];
      RowsPageBound(c, front);
      RowsWithoutBreak(c, front);
    }
  }

  /** Rows that fit below the cursor, with room for the largest check
      after them, cause no page break. */
  lemma {:induction false} RowsThatFit(c: Cursor, rows: seq<Row>, h: int)
    requires forall i :: 0 <= i < |rows| ==> rows[i].height <= h
    requires c.y + TotalAdvance(rows) + h <= Bottom
    ensures AfterRows(c, rows) == Cursor(c.y + TotalAdvance(rows), c.pages)
    decreases |rows|
  {
    if rows != [] {
      var front := rows[..|rows| - 1];
      assert forall i :: 0 <= i < |front| ==> front[i] == rows[i];
      RowsThatFit(c, front, h);
    }
  }

  /** Where a section leaves the cursor: `checkPageBreak(h)`, the header,
      `gap` below it, then the rows. */
  function AfterSection(c: Cursor, h: int, gap: nat, rows: seq<Row>): (r: Cursor)
    ensures c.pages <= r.pages <= c.pages + 1 + |rows|
    ensures Margin <= c.y ==> Margin <= r.y
  {
    var d := BreakCheck(c, h);
    var e := Cursor(d.y + SectionHeaderHeight + gap, d.pages);
    RowsPageBound(e, rows);
    RowsStayBelowMargin(e, rows);
    AfterRows(e, rows)
  }

  /** Where a table leaves the cursor: `checkPageBreak(h)`, its title and 6 below it,
      its header row and 6 below that, then the rows. */
  function AfterTable(c: Cursor, h: int, rows: seq<Row>): (r: Cursor)
    ensures c.pages <= r.pages <= c.pages + 1 + |rows|
    ensures Margin <= c.y ==> Margin <= r.y
  {
    var d := BreakCheck(c, h);
    var t := Cursor(d.y + 6 + 6, d.pages);
    RowsPageBound(t, rows);
    RowsStayBelowMargin(t, rows);
    AfterRows(t, rows)
  }

  /** The position and page count of the document being drawn. */
  class PdfCursor {
    var y: int
    var pages: nat

    /** `new jsPDF(...)` with `yPosition = margin`. */
    constructor ()
      ensures y == Margin && pages == 1
    {
      y := Margin;
      pages := 1;
    }

    function State(): Cursor
      reads this
    {
      Cursor(y, pages)
    }

    /** `checkPageBreak(h)`: adds a page and returns to the top margin when the block does not fit. */
    method CheckPageBreak(h: int) returns (broke: bool)
      modifies this
      ensures broke <==> Overflows(old(y), h)
      ensures State() == BreakCheck(old(State()), h)
    {
      if y + h > PageHeight - Margin {
        pages := pages + 1;
        y := Margin;
        broke := true;
      } else {
        broke := false;
      }
    }

    /** `yPosition = addSectionHeader(title, yPosition)`. */
    method AddSectionHeader()
      modifies this
      ensures y == old(y) + SectionHeaderHeight && pages == old(pages)
    {
      y := y + SectionHeaderHeight;
    }

    /** `yPosition += d`. */
    method Skip(d: nat)
      modifies this
      ensures y == old(y) + d && pages == old(pages)
    {
      y := y + d;
    }

    /** A section: `checkPageBreak(h)`, its header, `gap` below it, then its rows. */
    method AddSection(h: int, gap: nat, rows: seq<Row>)
      modifies this
      ensures State() == AfterSection(old(State()), h, gap, rows)
      ensures old(pages) <= pages <= old(pages) + 1 + |rows|
      ensures Margin <= old(y) ==> Margin <= y
    {
      var _ := CheckPageBreak(h);
      AddSectionHeader();
      Skip(gap);
      AddRows(rows);
    }

    /** A table: `checkPageBreak(h)`, its title, its header row, then its rows. */
    method AddTable(h: int, rows: seq<Row>)
      modifies this
      ensures State() == AfterTable(old(State()), h, rows)
      ensures old(pages) <= pages <= old(pages) + 1 + |rows|
      ensures Margin <= old(y) ==> Margin <= y
    {
      var _ := CheckPageBreak(h);
      Skip(6 + 6);
      AddRows(rows);
    }

    /** A `forEach` over rows, each preceded by its `checkPageBreak`. */
    method AddRows(rows: seq<Row>)
      modifies this
      ensures State() == AfterRows(old(State()), rows)
      ensures old(pages) <= pages <= old(pages) + |rows|
      ensures Margin <= old(y) ==> Margin <= y
    {
      ghost var start := State();
      var i := 0;
      while i < |rows|
        invariant 0 <= i <= |rows|
        invariant State() == AfterRows(start, rows[..i])
      {
        var _ := CheckPageBreak(rows[i].height);
        y := y + rows[i].advance;
        assert rows[..i + 1][..i] == rows[..i];
        i := i + 1;
      }
      assert rows[..|rows|] == rows;
      RowsPageBound(start, rows);
      RowsStayBelowMargin(start, rows);
    }
  }

  // ---------------------------------------------------------------------------
  // The footer

  /** The footer of page `i` of `total`. */
  function FooterLabel(i: nat, total: nat): (r: string)
    ensures |r| == 9 + |NatToString(i)| + |NatToString(total)|
    ensures r[..5] == "Page "
    ensures r[|r| - |NatToString(total)|..] == NatToString(total)
  {
    "Page " + NatToString(i) + " of " + NatToString(total)
  }

  /** Different pages of a document carry different footers. */
  lemma FooterLabelsDistinct(i: nat, j: nat, total: nat)
    requires FooterLabel(i, total) == FooterLabel(j, total)
    ensures i == j
  {
    var a := NatToString(i);
    var b := NatToString(j);
    var tail := "of " + NatToString(total);
    assert FooterLabel(i, total)[5..] == a + [' '] + tail;
    assert FooterLabel(j, total)[5..] == b + [' '] + tail;
    SplitFirstPiece(a, ' ', tail);
    SplitFirstPiece(b, ' ', tail);
    DecimalValueOfNatToString(i);
    DecimalValueOfNatToString(j);
  }

  /** The footer loop `for (let i = 1; i <= totalPages; i++)`: one label per page, in page order. */
  method FooterLabels(total: nat) returns (labels: seq<string>)
    ensures |labels| == total
    ensures forall k :: 0 <= k < total ==> labels[k] == FooterLabel(k + 1, total)
  {
    labels := [];
    var i := 1;
    while i <= total
      invariant 1 <= i <= total + 1
      invariant |labels| == i - 1
      invariant forall k :: 0 <= k < i - 1 ==> labels[k] == FooterLabel(k + 1, total)
    {
      labels := labels + [FooterLabel(i, total)];
      i := i + 1;
    }
  }

  // ---------------------------------------------------------------------------
  // The text of a key-value pair

  /** What `addKeyValue` prints for a value: `cleanText(value || 'N/A')`,
      with `cleanText` as written. */
  function Shown(value: string): (r: string)
    ensures value == [] ==> r == "N/A"
    ensures value != [] && '&' !in value && '<' !in value && Printable(value) ==> r == value
    ensures Printable(r)
  {
    if value == [] then
      NotAvailableIsClean("N/A");
      CleanTextAsWritten(Str("N/A"))
    else
      if '&' !in value && '<' !in value && Printable(value) then CleanTextIdentity(value); CleanTextAsWritten(Str(value))
      else CleanTextAsWritten(Str(value))
  }

  lemma NotAvailableIsClean(t: string)
    requires t == "N/A"
    ensures CleanTextAsWritten(Str(t)) == t
  {
    assert NoControl(t);
    CleanTextIdentity(t);
  }

  /** A field that the caller cleans before `addKeyValue` cleans it again. */
  function Detail(field: string): (r: string)
    ensures field == [] ==> r == "N/A"
    ensures Printable(r)
  {
    Shown(CleanTextAsWritten(Str(field)))
  }

  /** As written, a value holding the escaped text `&amp;lt;` is printed as
      `<`: `cleanText` decodes it twice. */
  lemma ShownDecodesTwice(value: string)
    requires value == "&amp;lt;"
    ensures Shown(value) == "<"
  {
    CleanTextAsWrittenDecodesTwice("&lt;");
  }

  /** `value || 'N/A'` for an optional text field. */
  function OrNotAvailable(field: Option<string>): (r: string)
    ensures r != []
    ensures field.Some? && field.value != [] ==> r == field.value
  {
    if field.Some? && field.value != [] then field.value else "N/A"
  }

  /** ASCII `toUpperCase` of one character. */
  function UpperChar(c: char): (r: char)
    ensures 'a' <= c <= 'z' ==> r as int == c as int - 32
    ensures !('a' <= c <= 'z') ==> r == c
  {
    if 'a' <= c <= 'z' then (c as int - 32) as char else c
  }

  /** `status.charAt(0).toUpperCase() + status.slice(1)`. */
  function Capitalize(s: string): (r: string)
    ensures |r| == |s|
    ensures s != [] ==> r[0] == UpperChar(s[0]) && r[1..] == s[1..]
  {
    if s == [] then [] else [UpperChar(s[0])] + s[1..]
  }

  // ---------------------------------------------------------------------------
  // The age field

  /** The age as the identification block intends it: "<age> years old". */
  function AgeField(age: nat): (r: string)
  {
    Shown(NatToString(age) + " years old")
  }

  /** `addKeyValue('Age', cleanText(patient.age) + ' years old', ...)`: the
      age goes through `cleanText`, for which the number 0 is falsy. */
  function AgeFieldAsWritten(age: nat): (r: string)
  {
    Shown(CleanTextAsWritten(Num(age)) + " years old")
  }

  /** The text " years old" and the digits in front of it are printable and markup-free. */
  lemma AgeTextIsPlain(digits: string)
    requires digits != [] && AllDigits(digits)
    ensures var t := digits + " years old";
      '&' !in t && '<' !in t && Printable(t)
  {
    var t := digits + " years old";
    assert t[|t| - 1] == 'd';
    assert t[0] == digits[0];
    forall i | 0 <= i < |t| ensures !IsControl(t[i]) && t[i] != '&' && t[i] != '<' {
      if i < |digits| {
        assert t[i] == digits[i];
      } else {
        assert t[i] == " years old"[i - |digits|];
      }
    }
  }

  /** Every age, 0 included, is printed as its decimal digits followed by " years old". */
  lemma AgeFieldShowsAge(age: nat)
    ensures AgeField(age) == NatToString(age) + " years old"
  {
    AgeTextIsPlain(NatToString(age));
  }

  /** Digits alone are cleaned to themselves. */
  lemma CleanNumber(n: nat)
    requires n != 0
    ensures CleanTextAsWritten(Num(n)) == NatToString(n)
  {
    var d := NatToString(n);
    assert forall i :: 0 <= i < |d| ==> !IsControl(d[i]) && d[i] != '&' && d[i] != '<';
    NoMarkup(d);
    assert !Falsy(Num(n)) && ToJsString(Num(n)) == d;
    FinishUnchanged(d);
  }

  /** As written, a positive age is printed as intended... */
  lemma AgeFieldAsWrittenAgrees(age: nat)
    requires age != 0
    ensures AgeFieldAsWritten(age) == AgeField(age)
  {
    CleanNumber(age);
  }

  /** ...but an age of 0 loses its number: the field reads "years old". */
  lemma AgeFieldAsWrittenDropsZero(age: nat, w: string)
    requires age == 0 && w == "years old"
    ensures AgeFieldAsWritten(age) == w
  {
    YearsOldShown(w);
    ZeroIsFalsy(age);
    LeadingSpace(w);
  }

  lemma ZeroIsFalsy(age: nat)
    requires age == 0
    ensures CleanTextAsWritten(Num(age)) == []
  {
  }

  lemma LeadingSpace(w: string)
    requires w == "years old"
    ensures [] + " years old" == [' '] + w
  {
  }

  /** The corrected field prints the digit: "0 years old". */
  lemma AgeFieldShowsZero(age: nat)
    requires age == 0
    ensures AgeField(age) == "0 years old"
  {
    AgeFieldShowsAge(age);
    ZeroAgeText(age);
  }

  lemma YearsOldShown(w: string)
    requires w == "years old"
    ensures Shown([' '] + w) == w
  {
    assert w[0] == 'y' && w[|w| - 1] == 'd';
    CleanLeadingSpace(w);
  }

  lemma ZeroAgeText(age: nat)
    requires age == 0
    ensures NatToString(age) + " years old" == "0 years old"
  {
    assert Digit(0) == '0';
  }

  /** Clean text after a single leading space: `cleanText` trims the space away. */
  lemma CleanLeadingSpace(w: string)
    requires w != [] && '&' !in w && '<' !in w && Printable(w)
    ensures Shown([' '] + w) == w
  {
    var s := [' '] + w;
    NoControlAfterSpace(w);
    NoMarkup(s);
    CleanTextPlain(s);
    TrimLeadingSpace(w);
  }

  lemma NoControlAfterSpace(w: string)
    requires NoControl(w) && '&' !in w && '<' !in w
    ensures NoControl([' '] + w) && '&' !in [' '] + w && '<' !in [' '] + w
  {
    var s := [' '] + w;
    forall i | 1 <= i < |s| ensures s[i] == w[i - 1] { }
  }

  // ---------------------------------------------------------------------------
  // Billing

  /** The amount owed when the record has none. */
  const DefaultOutstanding: real := 1250.0

  /** `patient.balance || 1250.00`: a zero balance is falsy. */
  function Outstanding(balance: real): (r: real)
    ensures r != 0.0
    ensures balance != 0.0 ==> r == balance
    ensures balance == 0.0 ==> r == DefaultOutstanding
  {
    if balance != 0.0 then balance else DefaultOutstanding
  }
}
