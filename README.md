# Hospital information system front end, modelled in Dafny

This project models the browser-side logic of a hospital information system's
patient directory and page chrome, and proves properties of that model. It
covers three scripts:

- `assets/patients.js`:
  - the patient directory's filter and sort (`filterPatients`);
  - card visibility (`renderPatients`);
  - the profile modal's single `selectedPatient` slot and its header
    (initials, status badge, critical-alert banner);
  - the inner workings of `exportPatientToPDF`: the page-break cursor
    `checkPageBreak`, `addSectionHeader` and `addKeyValue`, the `cleanText`
    sanitiser, the billing "Outstanding" rule, the footer loop, the file name,
    and the button and alert behaviour around the export.
- `assets/scripts.js`:
  - the preference store `savePreference`/`getPreference` over
    `localStorage`, including the clear-and-retry path on a quota error;
  - exclusive tab selection (`switchTab`);
  - doctor selection and filtering (`selectDoctor`, `filterDoctors`);
  - the sidebar's collapse flag and mobile drawer;
  - the two navbar dropdowns, Escape, and "mark all as read".
- `assets/ud-a11y.js`: the accessibility toggles. These are `handleToggle`,
  `toggleHighContrast`, `toggleLargeText`, the `a11y-`-prefixed
  `savePreference`, and `loadSavedPreferences`.

Modules follow the scripts:

| Dafny module | What it models |
|---|---|
| `PatientDirectory` | Records, query, filter predicate, comparator and stable sort. |
| `PatientsPage` | The page state; `currentPatients`, `selectedPatient` and the card visibility array are fields of a class whose handler methods update them. |
| `ProfileHeader` | The modal header derivations. |
| `Sanitize` | `cleanText` over strings, with `SanitizeExamples` holding concrete inputs. |
| `PdfLayout` | The `(yPosition, pageCount)` cursor as a class, the footer loop, and the key-value text. |
| `PdfExport` | The report's sections and the export button. |
| `BrowserStorage` | `localStorage`. |
| `Preferences` | The preference store. |
| `Tabs`, `Doctors`, `Sidebar`, `Navbar` | The chrome state machines of `assets/scripts.js`. |
| `Accessibility` | `assets/ud-a11y.js`. |
| `JsText`, `Dom`, `Wrappers` | The few JavaScript string built-ins, first-match DOM lookups, and `Option`. |

The browser's nondeterminism enters as parameters:

- whether a storage call throws, and which error (`Fault`, `Retry`, `readFails`);
- whether `window.jspdf` is loaded, and whether drawing throws;
- how many lines `splitTextToSize` wraps a value to (`wrap`);
- whether a click lands inside a dropdown's wrapper;
- whether the viewport is narrow.

## Model

| member | source | states |
|---|---|---|
| PatientDirectory.QueryOf | assets/patients.js:165-173 | The search term is empty when there is no box; it never starts or ends with white space and holds no upper-case letter. Missing selects read as "all", "all" and "name". |
| PatientDirectory.QueryOfSearch | assets/patients.js:170 | With a search box, the term is exactly the box's value lower-cased and then trimmed. |
| PatientDirectory.MatchesSearch | assets/patients.js:178-182 | An empty term matches every record; otherwise the term must occur in the lower-cased name, the lower-cased MRN, the phone or the lower-cased e-mail. |
| PatientDirectory.MatchesStatus | assets/patients.js:185 | "all" matches every status; any other value only that status. |
| PatientDirectory.Matches | assets/patients.js:178-197 | A record passes the filter iff it passes search, status and age. |
| PatientDirectory.AgeBand | assets/patients.js:188-195 | Every age falls in exactly one of the bands "pediatric", "adult" and "senior". |
| PatientDirectory.MatchesAge | assets/patients.js:187-195 | The age test holds iff the band value is not one of the three band names, or the age lies in that band. The bands are half-open at 18 and 65. |
| PatientDirectory.Filter | assets/patients.js:176-198 | A record is in the result iff it is in the directory and matches search AND status AND age. Each record occurs as often as in the directory when it matches, and not at all when it does not. |
| PatientDirectory.FilterInOrder | assets/patients.js:176-198 | The filtered list keeps the matching records in directory order: it is a subsequence of the directory. |
| PatientDirectory.FilterIsSubMultiset | assets/patients.js:176-198 | The filtered list is a sub-multiset of the directory. |
| PatientDirectory.FilterWithoutCriteria | assets/patients.js:176-198 | With an empty term and "all"/"all", filtering returns the directory unchanged. |
| PatientDirectory.StrLeTotal | assets/patients.js:203 | The string order standing in for `localeCompare` is total. |
| PatientDirectory.StrLeTransitive | assets/patients.js:203 | The string order is transitive. |
| PatientDirectory.StrLeAntisymmetric | assets/patients.js:203 | Two strings each at most the other are equal. |
| PatientDirectory.Precedes | assets/patients.js:201-212 | The comparator of each sort key: name ascending, name descending, last visit newest first, MRN ascending, and every pair in order for any other key. |
| PatientDirectory.PrecedesTotal | assets/patients.js:201-212 | The comparator of each sort key orders any two records one way or the other. |
| PatientDirectory.PrecedesTransitive | assets/patients.js:201-212 | The comparator of each sort key is transitive. |
| PatientDirectory.Insert | assets/patients.js:201-212 | Inserting adds exactly one record to the multiset. |
| PatientDirectory.SortPatients | assets/patients.js:201-212 | Sorting is a permutation: same length, same multiset. |
| PatientDirectory.InsertSorted | assets/patients.js:201-212 | Inserting into a sorted list keeps it sorted by the key. |
| PatientDirectory.SortPatientsSorted | assets/patients.js:201-212 | The sorted list is ordered by the key: name ascending, name descending, last visit newest first, or MRN ascending. |
| PatientDirectory.InsertTiedWith | assets/patients.js:201-212 | Inserting a record never moves it past a record tied with it: among the records tied with any `y`, the inserted one comes first when it is one of them and the others keep their order. |
| PatientDirectory.SortPatientsStable | assets/patients.js:201-212 | The sort is stable: for every record `y`, the records the comparator ties with `y` (`compare` returns 0 both ways) come out in the order they had in the filtered list. |
| PatientDirectory.SortUnknownKeyKeepsOrder | assets/patients.js:211 | For any other key the comparator returns 0, so the filter order is kept. |
| PatientDirectory.SortedPermutationsEqual | assets/patients.js:201-212 | Two sorted permutations of the same records are equal when the key identifies records, so the sort is determined by its key. |
| PatientDirectory.NameDescReversesName | assets/patients.js:202-205 | With distinct names, "name-desc" is exactly the reverse of "name". |
| PatientDirectory.ApplyQuery | assets/patients.js:164-215 | The filter followed by the sort of the selected key. |
| PatientDirectory.ApplyQueryResult | assets/patients.js:164-215 | The filtered and sorted result holds exactly the matching records, each as often as in the directory, and is sorted by the selected key. |
| PatientsPage.FindByMrn | assets/patients.js:259-286 | `patientsData.find` by MRN yields nothing iff no record has that MRN; otherwise it yields the first record of the list with that MRN. |
| PatientsPage.ResultMrns | assets/patients.js:214-251 | An MRN is that of a current record iff some directory record with that MRN satisfies the query. |
| PatientsPage.CardsOfResult | assets/patients.js:235-251 | A card visible for the current records is exactly a card whose MRN belongs to a matching directory record. |
| PatientsPage.FilteredMrns | assets/patients.js:176-198 | An MRN is that of a filtered record iff some directory record with that MRN satisfies the query. |
| PatientsPage.ResetControls | assets/patients.js:151-158 | After Reset the controls read as the query (empty, "all", "all", "name"). |
| PatientsPage.WithSelect | assets/patients.js:144-148 | A `change` on one select updates that select only. |
| PatientsPage.Page.constructor | assets/patients.js:109-110 | At load, `currentPatients` is the whole directory and no patient is selected. |
| PatientsPage.Page.RenderPatients | assets/patients.js:219-252 | Without a grid nothing changes. With no current record the grid is hidden and the empty state shown. Otherwise the empty state is hidden, the grid shown, and card k is displayed iff its `data-mrn` is the MRN of a current record. |
| PatientsPage.Page.FilterPatients | assets/patients.js:164-216 | `currentPatients` becomes the filtered, sorted directory. The cards then show exactly the records matching the controls. The empty state shows when none match and is hidden otherwise (together: `Rendered` for the controls' query). Without a grid neither the grid, the empty state nor any card changes. |
| PatientsPage.Page.ShowQuery | assets/patients.js:176-215 | The same, for a query already read from the controls. |
| PatientsPage.Page.OnSearchInput | assets/patients.js:122-130 | The clear button shows iff the box is non-empty. The box holds the value, `currentPatients` is the directory filtered and sorted by the new query, and the grid, empty state and cards are rendered for it (`Rendered`); without a grid they are unchanged. |
| PatientsPage.Page.SearchFor | assets/patients.js:128 | The search box holds the new value, `currentPatients` is the directory filtered and sorted by the resulting query, and the page is rendered for that query; without a grid nothing on it changes. |
| PatientsPage.Page.OnClearSearch | assets/patients.js:133-141 | With a search box, the box is emptied, the button hidden, the list filtered again and the page rendered for the new query. Without one, nothing happens: controls, list, grid, empty state and cards stay as they were. |
| PatientsPage.Page.OnSelectChange | assets/patients.js:143-148 | The select's new value is taken, the others stay, the list is filtered again and the page rendered for the new query; without a grid nothing on it changes. |
| PatientsPage.Page.OnReset | assets/patients.js:151-160 | After Reset the current list is the whole directory sorted by name: a permutation of the directory. The page is rendered for the default query, so every card with the MRN of a record is shown; without a grid nothing on it changes. |
| PatientsPage.Page.ShowPatientProfile | assets/patients.js:290-346 | The slot is set to the patient. Without the overlay or the modal nothing else changes. Otherwise each existing header element shows the record and the modal opens with the scroll locked. When the avatar initials exist but `#modal-avatar` does not, the handler stops after writing the initials. |
| PatientsPage.Page.ClosePatientModal | assets/patients.js:349-357 | Without the overlay nothing changes. Otherwise the modal closes, the scroll unlocks and the slot is cleared. |
| PatientsPage.Page.OnCardClick | assets/patients.js:259-286 | A click on a card or on its "view" button shows the profile of the first record with the card's MRN, opening the modal and locking the scroll when the overlay and the modal exist and leaving both as they were otherwise. "edit", "more" or an unknown MRN change nothing. |
| PatientsPage.Page.OnKeyDown | assets/patients.js:427-431 | Escape closes the modal only while it is displayed. |
| PatientsPage.Page.OnOverlayClick | assets/patients.js:418-424 | Only a click on the overlay's own background closes the modal. |
| PatientsPage.Page.OnExportClick | assets/patients.js:463-469 | With no patient selected nothing changes. Otherwise the selected record is exported: without the library one alert and nothing else; when drawing throws the error alert and no document; otherwise one document with the record's file name and a footer "Page k of N" on each of the N pages that `AfterReport` lays out. With the library the button is enabled again with its old caption. |
| ProfileHeader.InitialsAreWordStarts | assets/patients.js:307 | The initials are exactly the first characters of the space-separated words, so they contain no space and are no longer than the name. |
| ProfileHeader.WordStarts | assets/patients.js:307 | The reference scan keeps no space and never lengthens the name. |
| ProfileHeader.StatusLabel | assets/patients.js:316-319 | "active", "in-queue" and "admitted" map to "Active", "In Queue" and "Admitted"; every other status maps to "Discharged". |
| ProfileHeader.AlertMessage | assets/patients.js:328 | The banner's message is the record's alert text when it is present and non-empty, and "Critical medical alert" otherwise, so it is never empty. |
| ProfileHeader.HeaderFor | assets/patients.js:306-332 | With every element present, the initials are the word starts of the name, the name, gender, "MRN: " line and "<age> years old" line show the record, and the badge is the status label. The banner and the critical badge show iff `hasCriticalAlert`, and the banner text is the bold prefix and the alert message. |
| ProfileHeader.UpdateHeader | assets/patients.js:306-332 | Each header element that exists takes the record's value, and each missing one keeps what it showed. The banner is shown or hidden only when both of its elements exist, and its text is rewritten only for a critical alert. |
| ProfileHeader.UpdateHeaderAllPresent | assets/patients.js:306-332 | With every element present the header is the record's header, except that a hidden banner keeps its old text. |
| ProfileHeader.UpdateHeaderIdempotent | assets/patients.js:306-332 | Showing the same record twice leaves the header as showing it once. |
| ProfileHeader.UpdateHeaderLastWins | assets/patients.js:306-332 | For two records with critical alerts, showing one and then the other leaves the header as showing only the second. |
| Sanitize.StripTags | assets/patients.js:541 | Removing tags leaves no `<…>` tag and adds no character. Text without a tag is unchanged. |
| Sanitize.FromCharCode | assets/patients.js:553-560 | `String.fromCharCode` yields the code unit taken modulo 2^16 whenever that unit is not a surrogate. |
| Sanitize.DecodeDecimal | assets/patients.js:553-555 | Text with no `&` or no `;` is left unchanged by decimal-reference decoding. |
| Sanitize.DecodeHex | assets/patients.js:558-560 | Text with no `&` or no `;` is left unchanged by hexadecimal-reference decoding. |
| Sanitize.DecimalReference | assets/patients.js:553-555 | In text whose first `&` starts a reference `&#<digits>;`, the reference becomes the character of its value and the text before it is kept. |
| Sanitize.HexReference | assets/patients.js:558-560 | In text whose first `&` starts `&#x<hex digits>;` or `&#X<hex digits>;`, the reference becomes the character of its value and the text before it is kept. |
| Sanitize.HasEntity | assets/patients.js:537 | The test `/&[#\w]+;/`: some `&` is followed by one or more word characters or `#` and then `;`. |
| Sanitize.HasTag | assets/patients.js:537 | The test `/<[^>]*>/`: some `<` is followed later by a `>`. |
| Sanitize.DecodeNamedChain | assets/patients.js:544-550 | The seven literal replacements, in the source's order. |
| Sanitize.DecodeAsWritten | assets/patients.js:541-560 | The decoding stage as written: tags removed, then the named chain, then decimal and hexadecimal references. |
| Sanitize.Falsy | assets/patients.js:530 | `!text` holds for `undefined`, `null`, the number 0 and the empty string. |
| Sanitize.ToJsString | assets/patients.js:533 | `String(text)`, with a number as its decimal digits. |
| Sanitize.DecodeNamedChainNoSemicolon | assets/patients.js:544-550 | Without a `;` none of the seven literal replacements applies. |
| Sanitize.StripControls | assets/patients.js:575 | The result has no character of `\x00-\x08`, `\x0B-\x0C`, `\x0E-\x1F` or `\x7F-\x9F`. Text without one is unchanged. |
| Sanitize.CollapseAmp | assets/patients.js:579 | Collapsing never lengthens the text and leaves text without `&` unchanged. |
| Sanitize.CollapseDoubleAmp | assets/patients.js:579 | Two `&` with only white space before and between them become one `&`, and the rest of the text is collapsed in turn. |
| Sanitize.CollapseSingleAmp | assets/patients.js:579 | A single `&` survives the collapse. |
| Sanitize.Finish | assets/patients.js:575-581 | After the control strip, the collapse and the trim, no control character is left and no white space is left at either end. |
| Sanitize.CleanTextAsWritten | assets/patients.js:529-582 | `cleanText` as written, up to the `innerHTML` fallback: falsy input gives `''`, and every output is printable (no control character, no white space at either end). |
| Sanitize.CleanText | assets/patients.js:529-582 | `cleanText` with a one-pass reference decoder in place of the chain, also without the fallback: falsy input gives `''`, and every output is printable. |
| Sanitize.CleanTextPlain | assets/patients.js:537-581 | Input with no `&…;` reference and no `<…>` tag only has its control characters stripped, `\s*&\s*&` collapsed, and is trimmed. |
| Sanitize.CleanTextIdentity | assets/patients.js:537-581 | Printable text without `&` or `<` comes back unchanged. |
| Sanitize.CleanTextAmpersand | assets/patients.js:544 | `&amp;` between markup-free text decodes to `&`, in both versions, before the fallback. |
| Sanitize.DecodeOnceEscape | assets/patients.js:543-560 | The one-pass decoder returns any text from its HTML escape. |
| Sanitize.CleanTextEscaped | assets/patients.js:529-582 | The one-pass `cleanText` of escaped text is the text itself, put through the control strip, the collapse and the trim. |
| Sanitize.EscapeMarkupIsEntity | assets/patients.js:537 | Escaped text that had a markup character is detected as holding a reference, so it takes the decoding path. |
| SanitizeExamples.CleanTextAmpersandAlone | assets/patients.js:544 | `cleanText('&amp;')` is `'&'`. |
| SanitizeExamples.CleanTextAsWrittenDecodesTwice | assets/patients.js:544-545 | As written, the escape `&amp;lt;` of the text `&lt;` comes out as `<`, with no `&` left for the fallback. The one-pass stage gives `&lt;`, which the fallback would then decode. |
| PdfLayout.BreakCheck | assets/patients.js:499-506 | The page count rises by exactly one iff y + h > 297 − 15, and y then returns to the margin 15. Otherwise the cursor is unchanged. A block no taller than the printable height fits after the check. |
| PdfLayout.PdfCursor.CheckPageBreak | assets/patients.js:499-506 | Returns true iff the block overflowed, and moves the cursor as `BreakCheck` says. |
| PdfLayout.PdfCursor.AddSectionHeader | assets/patients.js:516-526 | The cursor moves down by 8 on the same page. |
| PdfLayout.PdfCursor.AddRows | assets/patients.js:697-700 | Each row runs its page check and then its advance. Rows add at most one page each, and the cursor never rises above the margin. |
| PdfLayout.AfterSection | assets/patients.js:707-720 | A section adds at most one page more than it has rows and keeps the cursor below the margin. |
| PdfLayout.PdfCursor.AddSection | assets/patients.js:707-720 | The cursor ends where `AfterSection` says: page check, header, gap, then the rows. A section adds at most one page more than it has rows. |
| PdfLayout.AfterTable | assets/patients.js:723-753 | A table adds at most one page more than it has rows and keeps the cursor below the margin. |
| PdfLayout.PdfCursor.AddTable | assets/patients.js:723-753 | The cursor ends where `AfterTable` says: page check, title, header row, then the rows. |
| PdfLayout.RowsPageBound | assets/patients.js:697-700 | Rows add between zero pages and one page per row. |
| PdfLayout.RowsStayBelowMargin | assets/patients.js:697-700 | Rows keep the cursor at or below the top margin. |
| PdfLayout.RowsWithoutBreak | assets/patients.js:697-700 | Rows that cause no break move the cursor by exactly their total advance, which is 5 per printed line for key-value rows. |
| PdfLayout.RowsThatFit | assets/patients.js:499-506 | Rows that fit above the bottom margin cause no page break. |
| PdfLayout.FooterLabel | assets/patients.js:993 | The footer starts with "Page ", ends with the total, and has the length of "Page i of N". |
| PdfLayout.FooterLabelsDistinct | assets/patients.js:989-993 | Two pages of one document never carry the same footer. |
| PdfLayout.FooterLabels | assets/patients.js:988-995 | The loop labels every page i from 1 to N as "Page i of N", in page order. |
| PdfLayout.Shown | assets/patients.js:592 | With `cleanText` as written: an empty value prints as "N/A". Printable text without markup prints as itself. Every printed value is printable. |
| PdfLayout.ShownDecodesTwice | assets/patients.js:544-545 | As written, a value holding the escaped text `&amp;lt;` prints as `<`. |
| PdfLayout.Detail | assets/patients.js:699 | A value cleaned twice by `cleanText` as written still prints "N/A" when empty, and is printable. |
| PdfLayout.OrNotAvailable | assets/patients.js:654-655 | `email \|\| 'N/A'` is the field when it is non-empty, and never empty. |
| PdfLayout.Capitalize | assets/patients.js:651 | The status keeps its length and only its first character is upper-cased. |
| PdfLayout.AgeFieldShowsAge | assets/patients.js:648 | The corrected age field prints the age's digits and " years old", for every age. |
| PdfLayout.AgeFieldAsWrittenAgrees | assets/patients.js:648 | As written, a positive age prints as intended. |
| PdfLayout.AgeFieldAsWrittenDropsZero | assets/patients.js:648 | As written, an age of 0 prints "years old" with no number. |
| PdfLayout.AgeFieldShowsZero | assets/patients.js:648 | The corrected field prints "0 years old". |
| PdfLayout.Outstanding | assets/patients.js:938 | The outstanding amount is the balance when it is non-zero, and 1250.00 when it is zero, so it is never zero. |
| PdfExport.KeyValueRow | assets/patients.js:585-596 | A key-value row asks for 8 and advances 5 per printed line. |
| PdfExport.ListRows | assets/patients.js:697-700 | There is one row per listed pair, each wrapped at the full content width. |
| PdfExport.TableRows | assets/patients.js:976-985 | A table row asks for 8 and advances 6. |
| PdfExport.AfterReport | assets/patients.js:598-985 | The report ends at or below the margin, on at least one page and at most one more than it has page checks. |
| PdfExport.LayOutReport | assets/patients.js:598-985 | The cursor ends exactly where `AfterReport` says. The report starts on one page and ends at or below the margin. It has at most one page more than it has page checks. The identification block is laid out with the age row as written. |
| PdfExport.AfterIdentification | assets/patients.js:598-675 | Without an alert the identification block moves the cursor down by its fixed rows and the taller column. With one, it starts a new page exactly when the banner's 12 do not fit, and the banner follows. |
| PdfExport.LayOutIdentification | assets/patients.js:598-675 | The cursor ends where `AfterIdentification` says, the block adds a page only through the alert banner's check, and the cursor stays below the margin. |
| PdfExport.IdentificationHeightAgrees | assets/patients.js:648 | For every positive age the block as written is as tall as the corrected one. |
| PdfExport.AfterClinicalRows | assets/patients.js:677-823 | The activity, medical-history, conditions and allergy blocks add at most four pages plus one per row, and keep the cursor below the margin. |
| PdfExport.AfterClinical | assets/patients.js:677-823 | With the source's lists, these sections add at most 13 pages plus one per activity row. |
| PdfExport.LayOutClinicalRows | assets/patients.js:677-823 | The cursor ends where `AfterClinicalRows` says. |
| PdfExport.LayOutClinical | assets/patients.js:677-823 | The cursor ends where `AfterClinical` says. The activity, medical-history and allergy sections add at most 13 pages plus one per activity row. |
| PdfExport.AfterRecords | assets/patients.js:824-930 | The medication, encounter and lab sections add at most three pages plus one per row, and keep the cursor below the margin. |
| PdfExport.LayOutRecords | assets/patients.js:824-930 | The cursor ends where `AfterRecords` says. |
| PdfExport.AfterBillingRows | assets/patients.js:824-985 | With the billing section and the transactions table after them, at most five pages plus one per row, and the cursor stays below the margin. |
| PdfExport.AfterBilling | assets/patients.js:824-985 | With the source's tables, these sections add at most 13 pages plus one per billing row. |
| PdfExport.LayOutBillingRows | assets/patients.js:824-985 | The cursor ends where `AfterBillingRows` says. |
| PdfExport.LayOutBilling | assets/patients.js:824-985 | The cursor ends where `AfterBilling` says. The medication, encounter, lab and billing sections add at most 13 pages plus one per billing row. |
| PdfExport.FileName | assets/patients.js:998 | The file name starts with "Patient_Profile_" and ends with ".pdf". |
| PdfExport.FileNameOfTimestamp | assets/patients.js:998 | For an ISO timestamp `date` + "T" + `time`, the name is "Patient_Profile_" + MRN + "_" + date + ".pdf". |
| PdfExport.GenerateReport | assets/patients.js:598-1002 | The saved document has the patient's file name and one footer "Page i of N" per page, where N is the page count `AfterReport` gives, at least one and at most one more than the page checks. |
| PdfExport.ExportButton.Export | assets/patients.js:473-1013 | Without the library: one alert and nothing else. When drawing throws: the error alert and no document. Otherwise: one document with the file name and a footer "Page k of N" on each of the N pages that `AfterReport` lays out. In both latter cases the button is re-enabled with its old caption. |
| BrowserStorage.LocalStorage.SetItem | assets/scripts.js:54 | A write that does not throw stores the pair; one that throws changes nothing. |
| BrowserStorage.LocalStorage.Clear | assets/scripts.js:59 | A clear that does not throw empties the storage. |
| Preferences.Truthy | assets/scripts.js:327 | JavaScript truthiness of a stored preference: `true`, or a non-empty string. |
| Preferences.AfterSave | assets/scripts.js:50-67 | A successful save stores `String(b)` for a boolean, or the string itself, under the key. No other key gains or changes a value. A direct write keeps every other key, and the quota path leaves only the new key. A failed save leaves the storage as it was or empty, and nothing is thrown. |
| Preferences.SavePreference | assets/scripts.js:50-67 | One write. On a quota error, a clear and a second write. Any other error is swallowed. |
| Preferences.GetPreference | assets/scripts.js:69-82 | The default comes back when the read throws or the key is absent. Otherwise the result is written back as exactly the stored string, and it is a boolean iff that string is "true" or "false". |
| Preferences.FlagRoundTrip | assets/scripts.js:50-82 | After a successful save of a boolean, reading returns it, whatever the default. |
| Preferences.TextRoundTrip | assets/scripts.js:50-82 | A saved string other than "true" and "false" reads back unchanged. |
| Preferences.SaveKeepsOtherPreferences | assets/scripts.js:50-67 | Saving one key leaves what another key reads as unchanged. Only the quota path may erase it. |
| Tabs.TabList.SwitchTab | assets/scripts.js:119-138 | The chosen tab is the only selected one. The only panel left visible is the first one whose id is the tab's `aria-controls`, and every panel is hidden when no panel has that id. |
| Tabs.TabList.OnTabKey | assets/scripts.js:110-115 | Enter and Space switch tabs; other keys change nothing. |
| Tabs.TabList.PanelOf | assets/scripts.js:133-134 | The panel found for a tab is the first one whose id is the tab's `aria-controls`, and there is none exactly when that id is empty (an empty `id` gives an element no ID) or no panel has it. |
| Tabs.ControlledId | assets/scripts.js:135-136 | The looked-up id is the tab's `aria-controls` when it has one. |
| Doctors.SpecializationTerm | assets/scripts.js:194 | The term is the select's value lower-cased, of the same length, and empty without the select. |
| Doctors.DoctorShown | assets/scripts.js:197-212 | A card is displayed iff the specialization term is empty or occurs in the lower-cased specialty, and the availability is not "available" or the doctor is available. |
| Doctors.DoctorPicker.SelectDoctor | assets/scripts.js:173-187 | Exactly one card is selected, and it is the clicked one. The input, when present, holds its doctor's name, and no card's visibility changes. |
| Doctors.DoctorPicker.OnCardKey | assets/scripts.js:152-157 | Enter and Space select exactly that card and put its doctor's name in the input when the input exists; other keys change nothing. The cards' visibility never changes. |
| Doctors.DoctorPicker.FilterDoctors | assets/scripts.js:189-216 | A card is displayed iff the specialization is empty or occurs in its lower-cased specialty, AND the availability is not "available" or the doctor is available. The selection is unchanged. |
| Doctors.DoctorPicker.OnFilterChange | assets/scripts.js:160-170 | A select's new value is taken and the cards filtered again. |
| Doctors.AvailableFilterKeepsAvailable | assets/scripts.js:209-211 | The "available" setting keeps exactly the available doctors among those the specialization keeps. |
| Doctors.NoFilterShowsEveryone | assets/scripts.js:195-206 | With no specialization and no "available" setting, every card shows. |
| Doctors.SpecialtyTermKeepsCard | assets/scripts.js:195-204 | A specialization occurring in the specialty, in any letter case, keeps the card. |
| Sidebar.SidebarPage.OnToggleClick | assets/scripts.js:229-243 | Both collapse classes flip. The root marker is present iff the sidebar is collapsed, and the new state is saved under "sidebarCollapsed". The three markers stay in agreement. |
| Sidebar.SidebarPage.LoadSidebarState | assets/scripts.js:325-339 | A truthy stored preference collapses the sidebar; anything else changes nothing. |
| Sidebar.LoadsCollapsed | assets/scripts.js:327-329 | The load collapses the sidebar iff the preference read with the default `false` is truthy. |
| Sidebar.CollapsedStateRoundTrip | assets/scripts.js:325-339 | The collapse state the toggle saves (line 242) is the state the next load restores. |
| Sidebar.NothingStoredLoadsExpanded | assets/scripts.js:327 | With nothing stored or unreadable storage, the sidebar starts expanded. |
| Sidebar.SidebarPage.OnMenuButtonClick | assets/scripts.js:247-266 | The drawer flips. The overlay, the scroll lock and `aria-expanded` follow it. |
| Sidebar.SidebarPage.OnOverlayClick | assets/scripts.js:269-278 | Mobile-open becomes false and `aria-expanded` "false". |
| Sidebar.SidebarPage.OnKeyDown | assets/scripts.js:281-292 | Escape closes an open drawer and sets `aria-expanded` to "false". Anything else changes nothing. |
| Sidebar.SidebarPage.CloseDrawer | assets/scripts.js:297-304 | The drawer closes and the scroll unlocks. The overlay is deactivated and `aria-expanded` set to "false" when they exist, and left as they were otherwise. |
| Sidebar.SidebarPage.CloseMobileSidebar | assets/scripts.js:295-306 | A navigation click closes the drawer at widths up to 1024 pixels. |
| Sidebar.SidebarPage.OnResizeAsWritten | assets/scripts.js:315-321 | As written, the resize handler never changes anything. |
| Sidebar.SidebarPage.OnResize | assets/scripts.js:315-321 | Corrected: growing past 1024 pixels closes the drawer. |
| Navbar.TopNavbar.OnNotificationsClick | assets/scripts.js:368-392 | The notifications dropdown flips and an open user dropdown closes, so the two are never open together afterwards. |
| Navbar.TopNavbar.OnUserProfileClick | assets/scripts.js:405-431 | The user dropdown and its trigger flip together and open notifications close, so the two are never open together afterwards. |
| Navbar.TopNavbar.OnDocumentClick | assets/scripts.js:442-462 | A click outside a dropdown's wrapper closes that dropdown. Nothing is ever opened, and exclusivity is kept. |
| Navbar.TopNavbar.OnKeyDown | assets/scripts.js:464-474 | Escape closes both dropdowns; other keys change nothing. |
| Navbar.TopNavbar.OnMarkAllRead | assets/scripts.js:477-491 | No notification item is left unread, and the badge is hidden. |
| Accessibility.StorageKey | assets/ud-a11y.js:60 | The storage key is "a11y-" followed by the preference key. |
| Accessibility.StorageKeysDistinct | assets/ud-a11y.js:60 | Different preferences never share a storage key. |
| Accessibility.AfterSave | assets/ud-a11y.js:58-64 | A save that does not throw stores "true" iff the value is true under the prefixed key. No other key changes, and a throwing save changes nothing. |
| Accessibility.SavedStateLoads | assets/ud-a11y.js:58-84 | A saved state is the state the next load sees. |
| Accessibility.SaveKeepsOtherPreference | assets/ud-a11y.js:58-64 | Saving contrast never changes whether large text loads, and vice versa. |
| Accessibility.LoadsEnabled | assets/ud-a11y.js:69 | A feature loads as enabled iff the read does not throw and the prefixed key holds exactly "true". |
| Accessibility.OnlyExactTrueLoads | assets/ud-a11y.js:66-84 | Any stored string other than exactly "true" does not enable the feature. |
| Accessibility.A11yPage.HandleToggle | assets/ud-a11y.js:22-40 | `aria-pressed` is always negated. The contrast and font-scale actions set their body class to the new state and save it; any other action changes nothing else. |
| Accessibility.A11yPage.ToggleHighContrast | assets/ud-a11y.js:42-48 | The body has `high-contrast` iff the argument is true. |
| Accessibility.A11yPage.ToggleLargeText | assets/ud-a11y.js:50-56 | The body has `large-text` iff the argument is true. |
| Accessibility.A11yPage.SavePreference | assets/ud-a11y.js:58-64 | The value is written under the prefixed key, and a throwing write is swallowed. |
| Accessibility.A11yPage.PressFirst | assets/ud-a11y.js:86-91 | Only the first toggle button with that action gets `aria-pressed` "true"; every other button keeps its state. |
| Accessibility.A11yPage.LoadSavedPreferences | assets/ud-a11y.js:66-91 | A feature whose stored string is exactly "true" is switched on and its first button pressed. Any other value, no value, or a throwing read leaves the classes and buttons untouched. |
| JsText.Trim | assets/patients.js:170 | `trim` returns the slice of the text between a prefix and a suffix of white space, and the slice neither starts nor ends with white space. |
| JsText.TrimmedSlice | assets/patients.js:170 | Dropping the leading and then the trailing white space leaves such a slice. |
| JsText.JoinSplit | assets/patients.js:307 | Joining the pieces of a split gives the text back. |
| JsText.NatToStringInjective | assets/patients.js:993 | Different numbers have different decimal renderings. |
| Dom.FirstIndexOf | assets/patients.js:247 | The lookup yields the first matching position, or nothing exactly when there is no match. |

## Left out

- `assets/dashboard.js` is not part of this model: it is declarative chart configuration.
- The jsPDF drawing calls (`text`, `roundedRect`, `setFont`, `line`, `setPage`, `save`) are effects the model does not draw. Only the cursor, the page count, the footer texts and the file name are kept.
- `splitTextToSize` is a library call. Its line count is the parameter `wrap`.
- Dates and number formatting are library formatting over floating point: `Date`, `toLocaleString`, `toLocaleDateString`, `toISOString`, `formatDate` and `formatCurrency`. The activity and billing texts are parameters, the ISO timestamp is a parameter, the visit date is an integer day number, and the balance is a `real`.
- The `innerHTML` fallback at the end of `cleanText`'s decoding stage (assets/patients.js:563-571) is browser HTML parsing. The model stops after the hexadecimal references.
- `localeCompare` is modelled as code-point lexicographic order. ICU collation is not modelled.
- Strings are sequences of Unicode scalar values, not UTF-16 code units. `String.fromCharCode` of a lone surrogate therefore yields U+FFFD.
- `toLowerCase` and `toUpperCase` are modelled for ASCII letters only.
- Timers, frames and pixel geometry are not modelled:
  - the `setTimeout` focus of the modal;
  - the 250 ms resize debounce (the viewport width enters as the boolean `narrow` at the time the timer fires);
  - the double `requestAnimationFrame` and the forced reflow on load;
  - `getBoundingClientRect` dropdown positioning and z-index.
- The SVG icon strings, `console.log`/`console.warn`, and the avatar background colour are not modelled.
- `updateModalOverviewTab` (assets/patients.js:360-396) is not modelled. It only writes formatted record fields and the `warning-text` class into existing elements.
- The modal tab click handler (assets/patients.js:434-460) is not modelled separately. It follows the same steps as `switchTab`, which `Tabs.TabList.SwitchTab` models, with an `active` class beside `aria-selected` and `hidden`.
- `getElementById` is modelled as searching the panels only. An id that belongs to another element is not part of this model.
- The dark-mode toggle and its loading in assets/scripts.js (lines 16-48 and 84-99) are not part of this model. They store their flag through the same `savePreference`/`getPreference` that `Preferences` models.
- `initStateEarly` and the `DOMContentLoaded` restore (assets/scripts.js:496-591) are not part of this model. They anticipate `loadSidebarState` to avoid a flash and reach the same collapsed state.
- The page is taken to have these elements, which the handlers dereference without a check:
  - the sidebar itself;
  - the `span` of the export button;
  - the `.doctor-name` and `.doctor-specialty` of each doctor card.
  The elements the modelled handlers test before use are flags of the model,
  the eight elements of the modal header included. `#modal-avatar`, which
  `showPatientProfile` dereferences without a test, is a flag too: without it
  the handler stops after writing the initials.
- `PatientsPage.Page.OnCardClick`: the click target is given as the card index and the action of the button hit. `closest` is not modelled.
- `PdfExport.ExportButton.Export`: a drawing call that throws is the boolean `fails`, and a failed export saves no document. Pages added before the failure are not tracked.
- Accessibility.A11yPage.PressFirst: `updateButtonState` queries the whole document for `[data-action="…"]`, while the model searches only the `.a11y-toggle` buttons. Another element with the same `data-action` earlier in the document is not modelled.
- `parseInt` returns a double, so a decimal or hexadecimal reference whose value exceeds 2^53 is rounded before `String.fromCharCode` reduces it modulo 2^16. The model computes the exact integer value.
- `Sanitize.CleanText`, `Sanitize.CleanTextEscaped`: these hold for the decoding stage without the `innerHTML` fallback (lines 563-571). In a browser, the `&lt;` that one pass leaves of `&amp;lt;` still holds an `&`, so the fallback decodes it to `<`, as the literal chain does. The model therefore records the double decoding of `SanitizeExamples.CleanTextAsWrittenDecodesTwice` as an observation, not as a defect.
- `Sanitize.CleanTextAmpersand`: holds before the fallback only. When `y` starts with a legacy entity name such as `lt` or `copy`, the fallback would decode the resulting `&lt` or `&copy` too.
- `Sanitize.ToJsString`: numbers are unbounded naturals printed in full. `String(n)` switches to exponent notation from 10^21 (`"1e+21"`), which is not modelled.
- `Preferences.SavePreference`: values other than booleans and strings are not modelled, because every caller passes a boolean.

## Findings

| source | as written | input that shows it | evidently intended | confidence | as-written member | corrected member |
|---|---|---|---|---|---|---|
| assets/patients.js:648 | `cleanText(patient.age)` returns `''` for age 0, because 0 is falsy | age 0 prints "years old" | "0 years old", as the modal header shows it (assets/patients.js:313) | high, not executed | PdfLayout.AgeFieldAsWrittenDropsZero | PdfLayout.AgeFieldShowsZero |
| assets/scripts.js:315-321 | The resize handler calls `closeMobileSidebar` only above 1024 pixels, and that function acts only at 1024 pixels or less | an open drawer, and a resize to 1280 pixels | The drawer closes when the window grows past the breakpoint | medium, not executed | Sidebar.SidebarPage.OnResizeAsWritten | Sidebar.SidebarPage.OnResize |
