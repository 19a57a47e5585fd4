/**
 * The spreadsheet import: each row (a map from header to cell text) is
 * trimmed and normalised; rows with no name, birth date and phone are
 * skipped; the first other row that lacks a required field aborts the whole
 * import with its display row number; the accepted rows get consecutive ids
 * after the largest id of the current table; no accepted row is an error.
 */
module Importer {
  import opened Wrappers
  import opened Text
  import opened Normalize
  import opened Records

  /** One spreadsheet row: header text to cell text. A missing header reads as "". */
  type Row = map<string, string>

  const NameHeader := "이름"
  const BirthDateHeader := "생년월일(YYYY-MM-DD)"
  const PhoneHeader := "연락처(숫자/하이픈 무관)"
  const JobHeader := "직무"
  const InterviewDateHeader := "면접일자(YYYY-MM-DD)"
  const InterviewTimeHeader := "면접시간(HH:MM)"
  const LocationHeader := "면접장소"
  const NotesHeader := "비고"

  /** `row[header] || ''`. */
  function Cell(row: Row, header: string): string {
    if header in row then row[header] else ""
  }

  /** The eight fields the importer reads from a row: text fields trimmed,
      dates and the time normalised; the phone is still as typed (trimmed).
      A date or time field is empty exactly when its cell is blank. */
  function RowFields(row: Row, parse: DateParser): (f: Draft)
    ensures f.birthDate == "" <==> Trim(Cell(row, BirthDateHeader)) == ""
    ensures f.interviewDate == "" <==> Trim(Cell(row, InterviewDateHeader)) == ""
    ensures f.interviewTime == "" <==> Trim(Cell(row, InterviewTimeHeader)) == ""
  {
    Draft(
      Trim(Cell(row, NameHeader)),
      NormalizeDate(Cell(row, BirthDateHeader), parse),
      Trim(Cell(row, PhoneHeader)),
      Trim(Cell(row, JobHeader)),
      NormalizeDate(Cell(row, InterviewDateHeader), parse),
      NormalizeTime(Cell(row, InterviewTimeHeader), parse),
      Trim(Cell(row, LocationHeader)),
      Trim(Cell(row, NotesHeader)))
  }

  /** A row with no name, no birth date and no phone: a blank trailing row. */
  predicate IsBlank(f: Draft) {
    f.name == "" && f.birthDate == "" && f.phone == ""
  }

  /** The row's name, birth date and phone are all empty. */
  predicate RowBlank(row: Row, parse: DateParser) {
    IsBlank(RowFields(row, parse))
  }

  /** The row is not blank but lacks a required field. */
  predicate RowIncomplete(row: Row, parse: DateParser) {
    !RowBlank(row, parse) && !Complete(RowFields(row, parse))
  }

  /** Whether a row is blank depends only on whether its name, birth date and
      phone cells are blank, never on the date parser. */
  lemma RowBlankCells(row: Row, parse: DateParser)
    ensures RowBlank(row, parse) <==>
              && Trim(Cell(row, NameHeader)) == ""
              && Trim(Cell(row, BirthDateHeader)) == ""
              && Trim(Cell(row, PhoneHeader)) == ""
  {
  }

  /** What the importer makes of one row. */
  datatype RowOutcome = Blank | Missing | Filled(draft: Draft)

  /** What an accepted row stores: its fields with the phone in the display layout. */
  function Stored(f: Draft): (d: Draft)
    ensures FormatPhoneNumber(d.phone) == d.phone
  {
    FormatPhoneIdempotent(f.phone);
    f.(phone := FormatPhoneNumber(f.phone))
  }

  /** A row is skipped, rejected for a missing required field, or accepted with
      its phone in the display layout. */
  function Classify(row: Row, parse: DateParser): (o: RowOutcome)
    ensures o.Blank? <==> RowBlank(row, parse)
    ensures o.Missing? <==> RowIncomplete(row, parse)
    ensures o.Filled? ==>
      && o.draft.name != "" && o.draft.birthDate != "" && o.draft.job != ""
      && o.draft.interviewDate != "" && o.draft.interviewTime != "" && o.draft.location != ""
      && FormatPhoneNumber(o.draft.phone) == o.draft.phone
  {
    var f := RowFields(row, parse);
    if IsBlank(f) then Blank
    else if !Complete(f) then Missing
    else Filled(Stored(f))
  }

  /** Why an import was refused. */
  datatype ImportError = MissingField(rowNumber: int) | NoData

  const MissingFieldSuffix := "행에 필수 값이 비어 있습니다."
  const NoDataMessage := "데이터가 없습니다. 템플릿 형식을 확인하세요."

  /** The message shown for a refused import. It is never empty, so the
      handler's fallback message for an empty one is never shown. */
  function ErrorMessage(e: ImportError): (m: string)
    ensures m != ""
    ensures e.NoData? <==> m == NoDataMessage
  {
    match e
    case MissingField(n) =>
      var d := IntToString(n);
      assert (d + MissingFieldSuffix)[0] == d[0] != NoDataMessage[0];
      d + MissingFieldSuffix
    case NoData => NoDataMessage
  }

  /** The message for a missing field starts with the row number, written out in
      decimal, and ends with the fixed text. */
  lemma MissingFieldMessage(n: int)
    ensures var m := ErrorMessage(MissingField(n));
            var k := |IntToString(n)|;
            && k <= |m|
            && IntValue(m[..k]) == n
            && m[k..] == MissingFieldSuffix
  {
    var m := ErrorMessage(MissingField(n));
    var k := |IntToString(n)|;
    assert m[..k] == IntToString(n);
    assert m[k..] == MissingFieldSuffix;
    IntToStringValue(n);
  }

  /** Different row numbers give different messages: the message names the row. */
  lemma MissingFieldMessageNamesRow(a: int, b: int)
    requires ErrorMessage(MissingField(a)) == ErrorMessage(MissingField(b))
    ensures a == b
  {
    MissingFieldMessage(a);
    MissingFieldMessage(b);
  }

  /** The row reader of the upload handler as a function value. */
  function RowReader(parse: DateParser): Row -> RowOutcome {
    row => Classify(row, parse)
  }

  /** What `readRow` makes of each row, in row order. */
  function Outcomes(rows: seq<Row>, readRow: Row -> RowOutcome): (os: seq<RowOutcome>)
    ensures |os| == |rows|
    ensures forall i :: 0 <= i < |rows| ==> os[i] == readRow(rows[i])
  {
    seq(|rows|, i requires 0 <= i < |rows| => readRow(rows[i]))
  }

  /** The records of the accepted rows, in row order. */
  function Accepted(os: seq<RowOutcome>): (ds: seq<Draft>)
    ensures |ds| <= |os|
  {
    if os == [] then []
    else
      var prior := Accepted(os[..|os| - 1]);
      match os[|os| - 1]
      case Filled(d) => prior + [d]
      case _ => prior
  }

  /** The index of the first row with a missing required field, if any. */
  function FirstMissing(os: seq<RowOutcome>): (r: Option<nat>)
    ensures r.None? <==> forall j :: 0 <= j < |os| ==> !os[j].Missing?
    ensures r.Some? ==> r.value < |os| && os[r.value].Missing?
                        && forall j :: 0 <= j < r.value ==> !os[j].Missing?
  {
    if os == [] then None
    else
      var prefix := os[..|os| - 1];
      assert forall j :: 0 <= j < |prefix| ==> prefix[j] == os[j];
      match FirstMissing(prefix)
      case Some(i) => Some(i)
      case None => if os[|os| - 1].Missing? then Some(|os| - 1) else None
  }

  /** Records with consecutive ids from `first`, in order. */
  function Numbered(ds: seq<Draft>, first: int): (r: seq<Applicant>)
    ensures |r| == |ds|
  {
    seq(|ds|, k requires 0 <= k < |ds| => WithId(ds[k], first + k))
  }

  /** The outcome of an import of rows whose outcomes are `os`, numbering from
      `first`: the first incomplete row's display number (index + 2), or no
      data, or the numbered records. */
  function Decide(os: seq<RowOutcome>, first: int): (r: Result<seq<Applicant>, ImportError>)
    ensures r.Err? && r.error.MissingField? ==> 2 <= r.error.rowNumber < |os| + 2
    ensures r.Ok? ==> 0 < |r.value| <= |os|
  {
    match FirstMissing(os)
    case Some(i) => Err(MissingField(i + 2))
    case None =>
      var ds := Accepted(os);
      if ds == [] then Err(NoData) else Ok(Numbered(ds, first))
  }

  /** The outcome of importing `rows`, read by `readRow`, while the table holds `current`. */
  function Import(rows: seq<Row>, current: seq<Applicant>, readRow: Row -> RowOutcome): (r: Result<seq<Applicant>, ImportError>)
    ensures r.Err? && r.error.MissingField? ==> 2 <= r.error.rowNumber < |rows| + 2
    ensures r.Ok? ==> 0 < |r.value| <= |rows|
  {
    Decide(Outcomes(rows, readRow), MaxId(current) + 1)
  }

  /** The outcome of the upload handler on `rows` while the table holds `current`. */
  function ImportResult(rows: seq<Row>, current: seq<Applicant>, parse: DateParser): Result<seq<Applicant>, ImportError> {
    Import(rows, current, RowReader(parse))
  }

  /** The row loop of the upload handler, given what it makes of one row: reads
      the rows in order, skips blank ones, stops at the first incomplete one,
      numbers the accepted ones after the current largest id, and refuses an
      empty result. */
  method ParseRows(rows: seq<Row>, current: seq<Applicant>, readRow: Row -> RowOutcome)
    returns (r: Result<seq<Applicant>, ImportError>)
    ensures r == Import(rows, current, readRow)
  {
    ghost var os := Outcomes(rows, readRow);
    var parsed: seq<Applicant> := [];
    var idx := 0;
    while idx < |rows|
      invariant 0 <= idx <= |rows|
      invariant FirstMissing(os[..idx]).None?
      invariant parsed == Numbered(Accepted(os[..idx]), MaxId(current) + 1)
    {
      var outcome := readRow(rows[idx]);
      assert outcome == os[idx];
      match outcome {
        case Blank =>
          // a blank row is skipped
          StepPastRow(os, idx);
        case Missing =>
          FirstMissingAt(os, idx);
          return Err(MissingField(idx + 2));
        case Filled(d) =>
          var id := MaxId(current) + |parsed| + 1;
          StepPastRow(os, idx);
          NumberedSnoc(Accepted(os[..idx]), d, MaxId(current) + 1);
          parsed := parsed + [WithId(d, id)];
      }
      idx := idx + 1;
    }
    assert os[..idx] == os;
    if |parsed| == 0 {
      return Err(NoData);
    }
    return Ok(parsed);
  }

  /** Reading one more row that is not incomplete keeps "no incomplete row so far"
      and adds its record, if any, to the accepted ones. */
  lemma StepPastRow(os: seq<RowOutcome>, idx: nat)
    requires idx < |os| && !os[idx].Missing? && FirstMissing(os[..idx]).None?
    ensures FirstMissing(os[..idx + 1]).None?
    ensures Accepted(os[..idx + 1]) == Accepted(os[..idx]) + (if os[idx].Filled? then [os[idx].draft] else [])
  {
    assert os[..idx + 1][..idx] == os[..idx] && os[..idx + 1][idx] == os[idx];
  }

  lemma NumberedSnoc(ds: seq<Draft>, d: Draft, first: int)
    ensures Numbered(ds + [d], first) == Numbered(ds, first) + [WithId(d, first + |ds|)]
  {
    var a := Numbered(ds + [d], first);
    var b := Numbered(ds, first) + [WithId(d, first + |ds|)];
    assert |a| == |b|;
    forall k | 0 <= k < |a| ensures a[k] == b[k] {
      if k < |ds| {
        assert (ds + [d])[k] == ds[k];
      }
    }
  }

  /** With no incomplete row before `i` and row `i` incomplete, `i` is the first incomplete row. */
  lemma FirstMissingAt(os: seq<RowOutcome>, i: nat)
    requires i < |os| && os[i].Missing?
    requires FirstMissing(os[..i]).None?
    ensures FirstMissing(os) == Some(i)
  {
    assert forall j :: 0 <= j < i ==> os[..i][j] == os[j];
  }

  /** The accepted records of two runs of rows are those of each run, in order. */
  lemma {:induction false} AcceptedConcat(a: seq<RowOutcome>, b: seq<RowOutcome>)
    ensures Accepted(a + b) == Accepted(a) + Accepted(b)
  {
    if b != [] {
      var b' := b[..|b| - 1];
      assert (a + b)[..|a + b| - 1] == a + b';
      assert (a + b)[|a + b| - 1] == b[|b| - 1];
      AcceptedConcat(a, b');
    } else {
      assert a + b == a;
    }
  }

  /** No record is accepted exactly when no row is filled in. */
  lemma {:induction false} AcceptedEmpty(os: seq<RowOutcome>)
    ensures Accepted(os) == [] <==> forall i :: 0 <= i < |os| ==> !os[i].Filled?
  {
    if os != [] {
      var prefix := os[..|os| - 1];
      AcceptedEmpty(prefix);
      assert forall i :: 0 <= i < |prefix| ==> prefix[i] == os[i];
    }
  }

  /** Every accepted record comes from a filled-in row. */
  lemma {:induction false} AcceptedFromFilled(os: seq<RowOutcome>, k: nat)
    requires k < |Accepted(os)|
    ensures exists i :: 0 <= i < |os| && os[i] == Filled(Accepted(os)[k])
  {
    var prefix := os[..|os| - 1];
    var last := |os| - 1;
    if k < |Accepted(prefix)| {
      AcceptedFromFilled(prefix, k);
      var i :| 0 <= i < |prefix| && prefix[i] == Filled(Accepted(prefix)[k]);
      assert os[i] == prefix[i];
    } else {
      assert os[last] == Filled(Accepted(os)[k]);
    }
  }

  /** Every filled-in row's record is among the accepted ones. */
  lemma {:induction false} FilledAccepted(os: seq<RowOutcome>, i: nat)
    requires i < |os| && os[i].Filled?
    ensures os[i].draft in Accepted(os)
  {
    var prefix := os[..|os| - 1];
    if i < |prefix| {
      FilledAccepted(prefix, i);
      assert prefix[i] == os[i];
    }
  }

  // ---------------------------------------------------------------------------
  // Properties of an import, for any row reader

  /** The first row that is neither blank nor complete aborts the import with its
      display number, index + 2 (one for the header row, one for counting from 1). */
  lemma ImportAbortsAtFirstIncomplete(rows: seq<Row>, current: seq<Applicant>, readRow: Row -> RowOutcome, i: nat)
    requires i < |rows| && readRow(rows[i]).Missing?
    requires forall j :: 0 <= j < i ==> !readRow(rows[j]).Missing?
    ensures Import(rows, current, readRow) == Err(MissingField(i + 2))
  {
    var os := Outcomes(rows, readRow);
    assert FirstMissing(os) == Some(i);
  }

  /** An aborted import names a row that is incomplete and that no incomplete row precedes. */
  lemma ImportAbortNamesFirstIncomplete(rows: seq<Row>, current: seq<Applicant>, readRow: Row -> RowOutcome, n: int)
    requires Import(rows, current, readRow) == Err(MissingField(n))
    ensures 2 <= n < |rows| + 2
    ensures readRow(rows[n - 2]).Missing?
    ensures forall j :: 0 <= j < n - 2 ==> !readRow(rows[j]).Missing?
  {
    var os := Outcomes(rows, readRow);
    assert FirstMissing(os).Some?;
  }

  /** An import is refused for having no data exactly when every row is blank. */
  lemma ImportNoData(rows: seq<Row>, current: seq<Applicant>, readRow: Row -> RowOutcome)
    ensures Import(rows, current, readRow) == Err(NoData)
            <==> forall i :: 0 <= i < |rows| ==> readRow(rows[i]).Blank?
  {
    AcceptedEmpty(Outcomes(rows, readRow));
  }

  /** A successful import holds at least one record, with unique ids above
      every current id. */
  lemma ImportSucceeds(rows: seq<Row>, current: seq<Applicant>, readRow: Row -> RowOutcome, ps: seq<Applicant>)
    requires Import(rows, current, readRow) == Ok(ps)
    ensures |ps| > 0 && UniqueIds(ps)
    ensures forall k, j :: 0 <= k < |ps| && 0 <= j < |current| ==> current[j].id < ps[k].id
  {
    assert ps == Numbered(Accepted(Outcomes(rows, readRow)), MaxId(current) + 1);
  }

  /** A successful import numbers its records consecutively from one past the
      current largest id. */
  lemma ImportNumbersAfterCurrent(rows: seq<Row>, current: seq<Applicant>, readRow: Row -> RowOutcome, ps: seq<Applicant>)
    requires Import(rows, current, readRow) == Ok(ps)
    ensures forall k :: 0 <= k < |ps| ==> ps[k].id == MaxId(current) + 1 + k
  {
    assert ps == Numbered(Accepted(Outcomes(rows, readRow)), MaxId(current) + 1);
  }

  /** The records of a successful import are the filled-in rows, in row order. */
  lemma ImportKeepsRowOrder(rows: seq<Row>, current: seq<Applicant>, readRow: Row -> RowOutcome, ps: seq<Applicant>)
    requires Import(rows, current, readRow) == Ok(ps)
    ensures |ps| == |Accepted(Outcomes(rows, readRow))|
    ensures forall k :: 0 <= k < |ps| ==> DraftOf(ps[k]) == Accepted(Outcomes(rows, readRow))[k]
    ensures forall k :: 0 <= k < |ps| ==> exists i :: 0 <= i < |rows| && readRow(rows[i]) == Filled(DraftOf(ps[k]))
  {
    var os := Outcomes(rows, readRow);
    var ds := Accepted(os);
    assert ps == Numbered(ds, MaxId(current) + 1);
    forall k | 0 <= k < |ps|
      ensures exists i :: 0 <= i < |rows| && readRow(rows[i]) == Filled(DraftOf(ps[k]))
    {
      AcceptedFromFilled(os, k);
      assert DraftOf(ps[k]) == ds[k];
    }
  }

  /** No filled-in row is lost: a successful import holds the record of every
      row the reader accepts. */
  lemma ImportKeepsEveryFilledRow(rows: seq<Row>, current: seq<Applicant>, readRow: Row -> RowOutcome, ps: seq<Applicant>, i: nat)
    requires Import(rows, current, readRow) == Ok(ps)
    requires i < |rows| && readRow(rows[i]).Filled?
    ensures exists k :: 0 <= k < |ps| && DraftOf(ps[k]) == readRow(rows[i]).draft
  {
    var os := Outcomes(rows, readRow);
    ImportKeepsRowOrder(rows, current, readRow, ps);
    FilledAccepted(os, i);
    var k :| 0 <= k < |Accepted(os)| && Accepted(os)[k] == os[i].draft;
    assert DraftOf(ps[k]) == readRow(rows[i]).draft;
  }

  /** A blank row after the others changes nothing. */
  lemma TrailingBlankRowIgnored(rows: seq<Row>, row: Row, current: seq<Applicant>, readRow: Row -> RowOutcome)
    requires readRow(row).Blank?
    ensures Import(rows + [row], current, readRow) == Import(rows, current, readRow)
  {
    var os := Outcomes(rows, readRow);
    var os' := Outcomes(rows + [row], readRow);
    assert os' == os + [Blank];
    assert os'[..|os'| - 1] == os;
  }

  // ---------------------------------------------------------------------------
  // Properties of the upload handler's row reader

  /** Every record of a successful upload has its required fields (the phone
      possibly excepted) and its phone in the display layout. */
  lemma ImportedRecordsFilled(rows: seq<Row>, current: seq<Applicant>, parse: DateParser, ps: seq<Applicant>)
    requires ImportResult(rows, current, parse) == Ok(ps)
    ensures forall k :: 0 <= k < |ps| ==>
              && ps[k].name != "" && ps[k].birthDate != "" && ps[k].job != ""
              && ps[k].interviewDate != "" && ps[k].interviewTime != "" && ps[k].location != ""
              && FormatPhoneNumber(ps[k].phone) == ps[k].phone
  {
    ImportKeepsRowOrder(rows, current, RowReader(parse), ps);
    forall k | 0 <= k < |ps|
      ensures && ps[k].name != "" && ps[k].birthDate != "" && ps[k].job != ""
              && ps[k].interviewDate != "" && ps[k].interviewTime != "" && ps[k].location != ""
              && FormatPhoneNumber(ps[k].phone) == ps[k].phone
    {
      var i :| 0 <= i < |rows| && RowReader(parse)(rows[i]) == Filled(DraftOf(ps[k]));
      var o := Classify(rows[i], parse);
      assert o == Filled(DraftOf(ps[k]));
    }
  }

  /** A row is accepted exactly when it is neither blank nor incomplete, and then
      it stores its fields with the phone passed through `formatPhoneNumber`. */
  lemma ClassifyFilled(row: Row, parse: DateParser)
    ensures var f := RowFields(row, parse);
            && (Classify(row, parse).Filled? <==> !IsBlank(f) && Complete(f))
            && (Classify(row, parse).Filled? ==> Classify(row, parse).draft == Stored(f))
  {
  }

  /** Every record of a successful upload is a row's fields, trimmed and
      normalised, with the trimmed phone cell passed through `formatPhoneNumber`. */
  lemma ImportedRecordsFromRows(rows: seq<Row>, current: seq<Applicant>, parse: DateParser, ps: seq<Applicant>)
    requires ImportResult(rows, current, parse) == Ok(ps)
    ensures forall k :: 0 <= k < |ps| ==>
              exists i :: 0 <= i < |rows| && DraftOf(ps[k]) == Stored(RowFields(rows[i], parse))
  {
    ImportKeepsRowOrder(rows, current, RowReader(parse), ps);
    forall k | 0 <= k < |ps|
      ensures exists i :: 0 <= i < |rows| && DraftOf(ps[k]) == Stored(RowFields(rows[i], parse))
    {
      var i :| 0 <= i < |rows| && RowReader(parse)(rows[i]) == Filled(DraftOf(ps[k]));
      ClassifyFilled(rows[i], parse);
    }
  }

  /** A phone cell with no digit at all is accepted and stored as "". */
  lemma PhoneWithoutDigitsStoredEmpty(row: Row, parse: DateParser)
    requires Complete(RowFields(row, parse))
    requires NormalizePhoneDigits(RowFields(row, parse).phone) == ""
    ensures Classify(row, parse) == Filled(RowFields(row, parse).(phone := ""))
  {
    var f := RowFields(row, parse);
    assert FormatPhoneNumber(f.phone) == HyphenLayout("");
  }

  /** The upload aborts at the first row that is not blank but lacks a required
      field, naming it by its display number, index + 2. */
  lemma UploadAbortsAtFirstIncomplete(rows: seq<Row>, current: seq<Applicant>, parse: DateParser, i: nat)
    requires i < |rows| && RowIncomplete(rows[i], parse)
    requires forall j :: 0 <= j < i ==> !RowIncomplete(rows[j], parse)
    ensures ImportResult(rows, current, parse) == Err(MissingField(i + 2))
  {
    var readRow := RowReader(parse);
    forall j | 0 <= j < i ensures !readRow(rows[j]).Missing? {
      assert !RowIncomplete(rows[j], parse);
    }
    ImportAbortsAtFirstIncomplete(rows, current, readRow, i);
  }

  /** A refused upload names a row that lacks a required field, and no earlier
      row does. */
  lemma UploadAbortNamesFirstIncomplete(rows: seq<Row>, current: seq<Applicant>, parse: DateParser, n: int)
    requires ImportResult(rows, current, parse) == Err(MissingField(n))
    ensures 2 <= n < |rows| + 2
    ensures RowIncomplete(rows[n - 2], parse)
    ensures forall j :: 0 <= j < n - 2 ==> !RowIncomplete(rows[j], parse)
  {
    var readRow := RowReader(parse);
    ImportAbortNamesFirstIncomplete(rows, current, readRow, n);
    assert readRow(rows[n - 2]).Missing?;
    forall j | 0 <= j < n - 2 ensures !RowIncomplete(rows[j], parse) {
      assert !readRow(rows[j]).Missing?;
    }
  }

  /** An upload is refused for having no data exactly when every row is blank. */
  lemma UploadNoData(rows: seq<Row>, current: seq<Applicant>, parse: DateParser)
    ensures ImportResult(rows, current, parse) == Err(NoData)
            <==> forall i :: 0 <= i < |rows| ==> RowBlank(rows[i], parse)
  {
    var readRow := RowReader(parse);
    ImportNoData(rows, current, readRow);
    assert (forall i :: 0 <= i < |rows| ==> readRow(rows[i]).Blank?)
           <==> (forall i :: 0 <= i < |rows| ==> RowBlank(rows[i], parse));
  }

  /** A successful upload holds records with unique ids. */
  lemma UploadUnique(rows: seq<Row>, current: seq<Applicant>, parse: DateParser)
    ensures ImportResult(rows, current, parse).Ok? ==> UniqueIds(ImportResult(rows, current, parse).value)
  {
    var r := ImportResult(rows, current, parse);
    if r.Ok? {
      ImportSucceeds(rows, current, RowReader(parse), r.value);
    }
  }

  /** No accepted row is lost: a successful upload holds the record of every row
      that is neither blank nor incomplete, its fields trimmed and normalised and
      its phone formatted. */
  lemma UploadKeepsEveryAcceptedRow(rows: seq<Row>, current: seq<Applicant>, parse: DateParser, ps: seq<Applicant>, i: nat)
    requires ImportResult(rows, current, parse) == Ok(ps)
    requires i < |rows| && !RowBlank(rows[i], parse) && Complete(RowFields(rows[i], parse))
    ensures exists k :: 0 <= k < |ps| && DraftOf(ps[k]) == Stored(RowFields(rows[i], parse))
  {
    ClassifyFilled(rows[i], parse);
    ImportKeepsEveryFilledRow(rows, current, RowReader(parse), ps, i);
  }
}
