# Interview schedule lookup: a Dafny model of its core

The application is a single React component (`src/App.jsx`). Applicants look up
their interview by entering name, birth date and phone. Administrators keep the
applicant table: they add, edit and delete records and import a spreadsheet.
This project models the logic under that screen and proves what it promises.

- **Normalisers** (`normalize.dfy`, on top of `text.dfy`):
  - `formatPhoneNumber`, `normalizePhoneDigits` and `pad2`;
  - the string branches of `normalizeDate`, which turn the basic calendar-date
    form `YYYYMMDD` into the extended form `YYYY-MM-DD` and pass the extended
    form through (section 4.1.2.2 of ISO 8601:2004);
  - the string branches of `normalizeTime`, which pad the hour of `H:MM` and
    `HH:MM`.

  `text.dfy` gives the JavaScript primitives these rest on: `trim` with the
  JavaScript white-space set, the `\d` class, and `String(n)`.
- **Matcher** (`matcher.dfy`): `handleSearch` is a strict three-factor match
  over the table in order: trimmed name, normalised birth date and digit-only
  phone. It returns the first match or "not found" (`None`).
- **Records** (`records.dfy`):
  - the applicant record, and the add/edit form (`Draft`), which has every
    field but the id;
  - the three list operations as functions: append under
    `max(ids, 0) + 1`, filter out an id, and replace the record being edited.
- **Importer** (`importer.dfy`): the row loop of `handleXlsxUpload`.
  - It is written as a method with a loop and an accumulator, `ParseRows`.
  - `ParseRows` is proved equal to a function of the rows, `Import`.
  - The properties of an import are lemmas about `Import`. Most hold for any
    row reader; the rest hold for the upload handler's reader, `Classify`.
- **Store** (`store.dfy`): the admin screen's state as a class.
  - Its fields are the table, the id being edited, the form and the import
    error.
  - Its methods are the add, delete, edit, update and import handlers.
  - Each method is proved against the list operation or the import it
    performs, and each keeps the ids unique.

The host's `new Date(...)` parser is not modelled. It is a parameter of type
`DateParser`: a string goes in, and the year, month index, day, hours and
minutes come out, or `None` for an invalid date. Every property that does not
name the parser holds for any parser. Spreadsheet cells are modelled as text
only: a row is a map from header text to cell text, and a missing header reads
as `""`.

The clock pattern of `normalizeTime`, `^(\d{1,2}):(\d{2})$`, pads only `H:MM`
and `HH:MM`. `"9:5"` misses it because it needs two minute digits, so it goes
to the host parser as `1970-01-01T9:5`. The result is the host's padded
`HH:MM` when the host accepts it, and `"9:5"` as typed when the host rejects
it (`Normalize.SingleMinuteDigitToHost`).

Ids are not reserved. The add handler numbers a new record one past the
largest id left in the table. After the record with the largest id is
deleted, the next record added receives an id no larger than the deleted one
(`Records.DeletedLargestIdReusable`). It receives exactly the deleted id when
that id was one past the next-largest, for instance right after the record was
added (`Records.AddedIdReusedAfterDelete`).

One behaviour of the upload handler is worth knowing. The required-field test
looks at the phone cell as typed, but the record stores the cell passed through
`formatPhoneNumber`. A phone cell with no digit at all, such as `"none"`, is
therefore accepted and stored as `""` (`Importer.PhoneWithoutDigitsStoredEmpty`).
A record added by hand must have a non-empty phone, so the two paths differ.
The model reproduces the code here.

## Model

| member | source | states |
|---|---|---|
| Text.Trim | src/App.jsx:24 | `trim` returns a string no longer than its input that neither starts nor ends with white space |
| Text.TrimSlice | src/App.jsx:24 | what `trim` keeps is one contiguous slice of the input, and every character it dropped before or after that slice is white space |
| Text.TrimUnchanged | src/App.jsx:24 | a string with no white space at either end is its own trim |
| Text.TrimIdempotent | src/App.jsx:119 | trimming twice gives what trimming once gave |
| Text.NatToString | src/App.jsx:14 | `String(n)` of a natural number is digits only with no leading zero; it has one digit exactly when n < 10, and two, three or four digits on the matching ranges |
| Text.IntToString | src/App.jsx:269 | `String(n)` of an integer is non-empty digits with no leading zero, after a minus sign when n is negative |
| Text.NatToStringValue | src/App.jsx:14 | the decimal value of `String(n)` is n, for every natural n |
| Text.IntToStringValue | src/App.jsx:269 | read back as a signed decimal, `String(n)` is n, for every integer n |
| Normalize.NormalizePhoneDigits | src/App.jsx:15 | the result holds only digits and is no longer than the input |
| Normalize.DigitsFixpoint | src/App.jsx:15 | a string is its own digit filter exactly when it is all digits |
| Normalize.DigitsIdempotent | src/App.jsx:15 | `normalizePhoneDigits` is idempotent |
| Normalize.DigitsMembership | src/App.jsx:15 | a character is in the result exactly when it is a digit that occurs in the input |
| Normalize.DigitsConcat | src/App.jsx:15 | the filter distributes over concatenation, so it keeps the digits in their input order |
| Normalize.HyphenLayout | src/App.jsx:9-11 | laying out at most 11 digits gives at most 13 characters, all digits or hyphens |
| Normalize.FormatPhoneNumber | src/App.jsx:7-12 | the formatted phone is at most 13 characters long and holds only digits and hyphens |
| Normalize.FormatPhoneDigits | src/App.jsx:8-11 | the non-hyphen characters of the formatted phone are exactly the first min(11, #digits) digits of the input, in order |
| Normalize.FormatPhoneHyphens | src/App.jsx:9-11 | with n = min(11, #digits): no hyphen and length n when n <= 3; one hyphen at index 3 and length n + 1 when 4 <= n <= 7; hyphens at indices 3 and 8 only and length n + 2 when n >= 8 |
| Normalize.LayoutHyphens | src/App.jsx:9-11 | the same hyphen positions and lengths for the layout of a string of at most 11 digits |
| Normalize.FormatPhoneIdempotent | src/App.jsx:7-12 | formatting a formatted phone changes nothing |
| Normalize.FormatShortPhone | src/App.jsx:8 | a phone of at most 11 digits loses none: its format is the layout of all its digits |
| Normalize.LayoutExtends | src/App.jsx:9-11 | one more digit extends the layout by that digit, after a hyphen when it is the 4th or the 8th digit |
| Normalize.FormatPhoneExtends | src/App.jsx:7-12 | typing a digit into a phone of fewer than 11 digits makes the old display a proper prefix of the new one |
| Normalize.Pad2 | src/App.jsx:14 | `pad2` has length max(2, \|s\|), ends with s, and has only zeros before it |
| Normalize.Pad2Digits | src/App.jsx:14 | padding digits gives digits |
| Normalize.Hyphenate | src/App.jsx:26 | a basic-form date with hyphens inserted after the year and the month is in extended form |
| Normalize.NormalizeDate | src/App.jsx:24-32 | the result is "" exactly when the trimmed input is empty; a trimmed input in basic or extended form gives an extended-form result |
| Normalize.BasicDateRoundTrip | src/App.jsx:26 | a basic-form s gives s[0..4] + "-" + s[4..6] + "-" + s[6..8], which is in extended form and whose digits give s back |
| Normalize.BasicDateHyphenated | src/App.jsx:26 | four, two and two digits written together come back joined by hyphens |
| Normalize.ExtendedDateUnchanged | src/App.jsx:27 | an input whose trim is in extended form gives that trim |
| Normalize.ExtendedDateFixed | src/App.jsx:27 | an extended-form date is a fixed point of `normalizeDate` |
| Normalize.HostDate | src/App.jsx:28-32 | a string the host rejects is returned as typed; a host date with a four-digit year, a month index below 12 and a day from 1 to 31 is written in extended form |
| Normalize.MomentDateExtended | src/App.jsx:30 | a host date with a four-digit year, a month index below 12 and a day from 1 to 31 is written in extended form |
| Normalize.NormalizeDateIdempotent | src/App.jsx:24-32 | normalising twice gives what normalising once gave, for empty, basic and extended inputs, strings the host rejects, and host dates with four-digit years |
| Normalize.ExtendedDateExample | src/App.jsx:27 | "1995-03-15" is returned unchanged |
| Normalize.PadClock | src/App.jsx:45 | an `H:MM` or `HH:MM` time with its hour padded is in the canonical `HH:MM` form |
| Normalize.NormalizeTime | src/App.jsx:42-50 | the result is "" exactly when the trimmed input is empty; a trimmed `H:MM` or `HH:MM` input gives a canonical `HH:MM` result |
| Normalize.MomentTimeCanonical | src/App.jsx:48 | a host time with hours below 24 and minutes below 60 is written in the canonical `HH:MM` form |
| Normalize.HostTime | src/App.jsx:46-50 | a time the host rejects after the reference day is returned as typed; a host time with hours below 24 and minutes below 60 is written as `HH:MM` |
| Normalize.ClockPadded | src/App.jsx:44-45 | for a clock-time input the result has 5 characters: the hour left-padded with '0' to two, a colon, and the input's minutes |
| Normalize.CanonicalTimeFixed | src/App.jsx:44-45 | a canonical `HH:MM` time is a fixed point of `normalizeTime` |
| Normalize.NormalizeTimeIdempotent | src/App.jsx:42-45 | `normalizeTime` is idempotent on clock-time inputs |
| Normalize.ShortHourGainsZero | src/App.jsx:44-45 | `H:MM` becomes `0H:MM` |
| Normalize.SingleMinuteDigitToHost | src/App.jsx:44-50 | `H:M` misses the clock pattern and goes to the host parser after the reference day: the result is the host's hours and minutes padded as `pad2(h):pad2(m)` when the host accepts it (canonical `HH:MM` for a valid time), and `H:M` as typed when the host rejects it |
| Normalize.CanonicalTimeExample | src/App.jsx:44-45 | "14:00" is returned unchanged |
| Records.MaxId | src/App.jsx:172 | `max(ids, 0)` is at least every id, and is 0 or the id of some record |
| Records.NextId | src/App.jsx:172 | the new id is at least 1 and above every id in the table |
| Records.Complete | src/App.jsx:160-168 | the seven-field required test (notes exempt) that `Add`, `Update` and `Classify` use; a form that passes it is not the empty form |
| Records.Appended | src/App.jsx:172-173 | adding keeps the table as a prefix and appends the form under an id above every earlier id |
| Records.AppendedSpec | src/App.jsx:172-173 | adding keeps every earlier record in place and appends the form under `max(ids, 0) + 1`, an id no earlier record has; unique ids stay unique |
| Records.Removed | src/App.jsx:179 | deleting never lengthens the table |
| Records.RemovedMembers | src/App.jsx:179 | a record survives deletion exactly when it was in the table and its id differs |
| Records.RemovedConcat | src/App.jsx:179 | deletion works record by record, so the survivors keep their order |
| Records.RemovedAbsent | src/App.jsx:179 | deleting an id that no record has changes nothing |
| Records.RemovedUnique | src/App.jsx:179 | deleting keeps the ids unique |
| Records.RemovedExactlyOne | src/App.jsx:179 | with unique ids, deleting record k's id removes record k and keeps every other record in order |
| Records.Replaced | src/App.jsx:202 | updating keeps the table's length |
| Records.ReplacedSpec | src/App.jsx:202 | updating keeps length, order and every id; the record whose id is `editingId` takes the form's fields; every other record is unchanged; unique ids stay unique |
| Records.ReplacedExactlyOne | src/App.jsx:202 | with unique ids, updating record k replaces exactly that record by the form under its own id |
| Records.ReplacedAbsent | src/App.jsx:202 | updating while no record has `editingId` (or nothing is being edited) changes nothing |
| Records.RemoveAppended | src/App.jsx:172-179 | deleting the record just added gives back the table as it was |
| Records.ReplacedUnchanged | src/App.jsx:183-202 | loading a record for editing and saving it untouched gives back the table as it was |
| Records.ReplacedAfterRemoved | src/App.jsx:177-204 | once the record being edited has been deleted, saving the edit changes no record |
| Records.AddedIdReusedAfterDelete | src/App.jsx:172-179 | deleting the record just added and adding again gives the new record the same id |
| Records.DeletedLargestIdReusable | src/App.jsx:172-179 | after deleting the record with the largest id, the next id is at most that id, so it can be given out again |
| Matcher.Matches | src/App.jsx:125-127 | the three-factor test that `Search` is specified by: trimmed names, normalised birth dates and digit-only phones are equal |
| Matcher.Find | src/App.jsx:123-128 | `find` returns None exactly when no element passes; otherwise it returns an element that passes and that no passing element precedes |
| Matcher.FindAgrees | src/App.jsx:123-128 | two tests that agree on every element find the same element |
| Matcher.Search | src/App.jsx:118-134 | not found exactly when no record matches all three factors; otherwise the first record that matches all three |
| Matcher.SearchAgrees | src/App.jsx:123-128 | two queries that match the same records find the same record |
| Matcher.SearchIgnoresPhoneLayout | src/App.jsx:121-127 | a query phone of at most 11 digits finds the same record whether typed bare or in the display layout |
| Matcher.SearchIgnoresNameSpacing | src/App.jsx:119-125 | white space around the query name does not change the result |
| Matcher.OneFactorMisses | src/App.jsx:125-127 | a query that differs from a record in any one factor does not find it |
| Matcher.SearchFindsOwnRecord | src/App.jsx:123-128 | searching with a record's own name, birth date and phone always finds a record with those three factors |
| Importer.RowFields | src/App.jsx:258-265 | the birth date, interview date and interview time read from a row are empty exactly when their trimmed cells are empty |
| Importer.RowBlankCells | src/App.jsx:258-267 | a row is blank exactly when its trimmed name, birth date and phone cells are all empty, whatever the date parser |
| Importer.Stored | src/App.jsx:276 | an accepted row's phone is stored in the display layout, a fixed point of `formatPhoneNumber` |
| Importer.Classify | src/App.jsx:258-276 | a row is skipped exactly when it is blank, and rejected exactly when it is not blank but lacks a required field; an accepted row has a non-empty name, birth date, job, interview date, interview time and location, and a formatted phone |
| Importer.ClassifyFilled | src/App.jsx:267-276 | a row is accepted exactly when it is neither blank nor missing a required field, and it then stores its trimmed and normalised fields with the phone formatted |
| Importer.ErrorMessage | src/App.jsx:269-286 | the refusal message is never empty, so the fallback of line 292 never shows; it is the no-data text exactly for the no-data refusal |
| Importer.MissingFieldMessage | src/App.jsx:269 | the missing-field message is the row number in decimal, which reads back as that number, followed by the fixed text |
| Importer.MissingFieldMessageNamesRow | src/App.jsx:269 | two missing-field messages are equal only for the same row number |
| Importer.Accepted | src/App.jsx:267-282 | no more records are accepted than there are rows |
| Importer.FirstMissing | src/App.jsx:268-269 | None exactly when no row is incomplete; otherwise the index of an incomplete row that no incomplete row precedes |
| Importer.Numbered | src/App.jsx:273 | numbering keeps the number of records |
| Importer.Decide | src/App.jsx:267-287 | a missing-field refusal names a display row from 2 to the row count + 1; a success holds at least one and at most as many records as rows |
| Importer.Import | src/App.jsx:256-287 | a missing-field refusal names a display row from 2 to the row count + 1; a success holds at least one and at most as many records as rows |
| Importer.ParseRows | src/App.jsx:256-287 | the row loop's result equals `Import`: the first incomplete row's number, or no data, or the accepted rows numbered after the current largest id |
| Importer.AcceptedConcat | src/App.jsx:257-282 | the records accepted from two runs of rows are those of each run, in order |
| Importer.AcceptedEmpty | src/App.jsx:285 | nothing is accepted exactly when no row is filled in |
| Importer.AcceptedFromFilled | src/App.jsx:272-282 | every accepted record comes from a filled-in row |
| Importer.FilledAccepted | src/App.jsx:272-282 | the record of every filled-in row is among the accepted ones |
| Importer.ImportAbortsAtFirstIncomplete | src/App.jsx:268-269 | the first incomplete row aborts the import with its display number, index + 2 |
| Importer.ImportAbortNamesFirstIncomplete | src/App.jsx:268-269 | an aborted import names row index + 2 of an incomplete row that no incomplete row precedes |
| Importer.ImportNoData | src/App.jsx:267-286 | the import is refused for having no data exactly when every row is blank |
| Importer.ImportSucceeds | src/App.jsx:272-289 | a successful import holds at least one record, with unique ids above every current id |
| Importer.ImportNumbersAfterCurrent | src/App.jsx:273 | the k-th imported record gets id `max(old ids, 0) + 1 + k` |
| Importer.ImportKeepsRowOrder | src/App.jsx:257-289 | the imported records are exactly the accepted rows, as many as there are and in row order, each read from a filled-in row |
| Importer.ImportKeepsEveryFilledRow | src/App.jsx:257-289 | every row the reader accepts has its record in a successful import |
| Importer.TrailingBlankRowIgnored | src/App.jsx:267 | a blank row after the others changes nothing |
| Importer.ImportedRecordsFilled | src/App.jsx:268-276 | every imported record has its required fields (the phone excepted) and a formatted phone |
| Importer.ImportedRecordsFromRows | src/App.jsx:258-282 | every imported record is some row's trimmed and normalised fields with the phone passed through `formatPhoneNumber` |
| Importer.UploadAbortsAtFirstIncomplete | src/App.jsx:257-270 | the first row that is not blank but lacks a required field aborts the upload with its display number, index + 2 |
| Importer.UploadAbortNamesFirstIncomplete | src/App.jsx:268-269 | a refused upload names row index + 2, which lacks a required field, and no earlier row does |
| Importer.UploadNoData | src/App.jsx:267-286 | the upload is refused for having no data exactly when every row is blank |
| Importer.UploadUnique | src/App.jsx:272-289 | a successful upload holds records with unique ids |
| Importer.UploadKeepsEveryAcceptedRow | src/App.jsx:258-289 | a successful upload holds the record of every row that is neither blank nor incomplete: its trimmed and normalised fields with the phone formatted |
| Importer.PhoneWithoutDigitsStoredEmpty | src/App.jsx:260-276 | a complete row whose phone cell has no digit is accepted with phone "" |
| Store.ApplicantStore.constructor | src/App.jsx:55-72 | the screen starts with an empty table, nothing being edited, an empty form and no import error |
| Store.ApplicantStore.Add | src/App.jsx:159-175 | with every required field filled in, the table becomes the add operation's result and the form is cleared; otherwise nothing changes; unique ids stay unique |
| Store.ApplicantStore.Delete | src/App.jsx:177-181 | once confirmed, the table becomes the delete operation's result; otherwise nothing changes; unique ids stay unique |
| Store.ApplicantStore.BeginEdit | src/App.jsx:183-186 | the record's id is remembered and its fields are loaded into the form; the table is unchanged |
| Store.ApplicantStore.Update | src/App.jsx:188-206 | with every required field filled in, the table becomes the update operation's result, editing stops and the form is cleared; otherwise nothing changes; unique ids stay unique |
| Store.ApplicantStore.Import | src/App.jsx:245-292 | a successful import replaces the whole table and clears the error; a refused one keeps the table and sets the refusal's message; unique ids stay unique |

## Left out

- The numeric branches of `normalizeDate` and `normalizeTime` (src/App.jsx:19-23, 37-41) are not modelled. They read spreadsheet date serials through a library whose source is not part of this model. Cells are text here.
- The host's parsing in the `new Date(...)` fallbacks (src/App.jsx:28-31, 46-49) is not modelled: it depends on the host's date parser and time zone, so it is the `DateParser` parameter. The rest of each fallback is modelled by `Normalize.HostDate` and `Normalize.HostTime`.
- `undefined` and `null` inputs to the normalisers are not modelled, and neither is `value || ''`. Every input here is a string, and a missing cell reads as "".
- The matcher's `'not_found'` marker and the search form's state are not modelled. A search returns `Option<Applicant>`.
- Workbook reading, `FileReader`, the file input and its reset, and the fallback message for an unreadable file (src/App.jsx:242-254, 290-295) are not modelled. They are I/O through a foreign library, so the import starts from rows that were already read.
- The template download (src/App.jsx:214-240) is not modelled. It only writes a file.
- React hooks, hash routing, the sample-data seeding effect and the rendering are not modelled. They are user-interface plumbing.
- `alert`, the admin password check and `window.confirm` are not modelled. The delete confirmation is the `confirmed` parameter.
- Store.ApplicantStore.BeginEdit: the form here has no id field. The source copies the record's id into the form, but add and update always overwrite it, so it is never observable.
- Normalize.NormalizeDateIdempotent: host dates outside the years 1000 to 9999, and host results with an out-of-range month or day, are excluded. Their text depends on the host parser.
- Text.Trim: strings are sequences of code points, while JavaScript uses UTF-16 code units. Every character `trim` tests is in the Basic Multilingual Plane, where the two agree.
- Records.MaxId: ids are mathematical integers. The source's ids are JavaScript numbers; they stay exact below 2^53, which the ids of a hand-kept table never reach.
