/**
 * The admin screen's state: the applicant table, the id of the record being
 * edited, the add/edit form and the import error message, with the handlers
 * that change them. Each handler is proved against the list operation of
 * `Records` or the import of `Importer` it performs, and keeps the ids unique.
 */
module Store {
  import opened Wrappers
  import opened Normalize
  import opened Records
  import opened Importer

  class ApplicantStore {
    /** The applicant table. */
    var applicants: seq<Applicant>
    /** The id of the record loaded into the form for editing, if any. */
    var editingId: Option<int>
    /** The add/edit form. */
    var draft: Draft
    /** The message of the last refused import, or "". */
    var importError: string

    /** No two records share an id. */
    ghost predicate Valid()
      reads this
    {
      UniqueIds(applicants)
    }

    /** The initial state: an empty table, nothing being edited, an empty form. */
    constructor()
      ensures Valid()
      ensures applicants == [] && editingId == None && draft == EmptyDraft && importError == ""
    {
      applicants := [];
      editingId := None;
      draft := EmptyDraft;
      importError := "";
    }

    /** `handleAddApplicant`: with every required field filled in, append the form
        under one past the largest id and clear the form; otherwise change nothing. */
    method Add() returns (added: bool)
      requires Valid()
      modifies this
      ensures Valid()
      ensures added <==> Complete(old(draft))
      ensures added ==> applicants == Appended(old(applicants), old(draft)) && draft == EmptyDraft
      ensures !added ==> applicants == old(applicants) && draft == old(draft)
      ensures editingId == old(editingId) && importError == old(importError)
    {
      if !Complete(draft) {
        return false;
      }
      AppendedSpec(applicants, draft);
      applicants := Appended(applicants, draft);
      draft := EmptyDraft;
      return true;
    }

    /** `handleDeleteApplicant`: once the user confirms, drop every record with `id`. */
    method Delete(id: int, confirmed: bool)
      requires Valid()
      modifies this
      ensures Valid()
      ensures applicants == if confirmed then Removed(old(applicants), id) else old(applicants)
      ensures editingId == old(editingId) && draft == old(draft) && importError == old(importError)
    {
      if confirmed {
        RemovedUnique(applicants, id);
        applicants := Removed(applicants, id);
      }
    }

    /** `handleEditApplicant`: load a record into the form and remember its id. */
    method BeginEdit(a: Applicant)
      modifies this
      ensures editingId == Some(a.id) && draft == DraftOf(a)
      ensures applicants == old(applicants) && importError == old(importError)
    {
      editingId := Some(a.id);
      draft := DraftOf(a);
    }

    /** `handleUpdateApplicant`: with every required field filled in, give the form's
        fields to the record being edited, keeping its id, then stop editing and
        clear the form; otherwise change nothing. */
    method Update() returns (updated: bool)
      requires Valid()
      modifies this
      ensures Valid()
      ensures updated <==> Complete(old(draft))
      ensures updated ==> && applicants == Replaced(old(applicants), old(editingId), old(draft))
                          && editingId == None && draft == EmptyDraft
      ensures !updated ==> applicants == old(applicants) && editingId == old(editingId) && draft == old(draft)
      ensures importError == old(importError)
    {
      if !Complete(draft) {
        return false;
      }
      ReplacedSpec(applicants, editingId, draft);
      applicants := Replaced(applicants, editingId, draft);
      editingId := None;
      draft := EmptyDraft;
      return true;
    }

    /** `handleXlsxUpload` once the sheet is read: a successful import replaces the
        whole table and leaves no error; a refused one keeps the table and shows
        its message. */
    method Import(rows: seq<Row>, parse: DateParser)
      requires Valid()
      modifies this
      ensures Valid()
      ensures match ImportResult(rows, old(applicants), parse)
              case Ok(ps) => applicants == ps && importError == ""
              case Err(e) => applicants == old(applicants) && importError == ErrorMessage(e)
      ensures editingId == old(editingId) && draft == old(draft)
    {
      var r := ParseRows(rows, applicants, RowReader(parse));
      UploadUnique(rows, applicants, parse);
      assert r == ImportResult(rows, old(applicants), parse);
      match r
      case Ok(ps) =>
        applicants := ps;
        importError := "";
      case Err(e) =>
        importError := ErrorMessage(e);
    }
  }
}
