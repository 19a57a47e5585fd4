/**
 * The applicant record and the three list operations the admin screen applies
 * to the applicant table: append with a fresh id, filter out an id, and
 * replace the record being edited. These are the specifications the store's
 * methods are proved against.
 */
module Records {
  import opened Wrappers

  /** One row of the applicant table. */
  datatype Applicant = Applicant(
    id: int,
    name: string,
    birthDate: string,
    phone: string,
    job: string,
    interviewDate: string,
    interviewTime: string,
    location: string,
    notes: string)

  /** The add/edit form: every field of an applicant but its id. */
  datatype Draft = Draft(
    name: string,
    birthDate: string,
    phone: string,
    job: string,
    interviewDate: string,
    interviewTime: string,
    location: string,
    notes: string)

  const EmptyDraft := Draft("", "", "", "", "", "", "", "")

  /** The required-field test of the add and update handlers: every field but
      the notes is non-empty. */
  predicate Complete(d: Draft): (b: bool)
    ensures b ==> d != EmptyDraft
  {
    d.name != "" && d.birthDate != "" && d.phone != "" && d.job != ""
    && d.interviewDate != "" && d.interviewTime != "" && d.location != ""
  }

  /** `{ ...draft, id }`. */
  function WithId(d: Draft, id: int): Applicant {
    Applicant(id, d.name, d.birthDate, d.phone, d.job, d.interviewDate, d.interviewTime, d.location, d.notes)
  }

  /** `{ ...applicant }` loaded into the form; the form has no id. */
  function DraftOf(a: Applicant): Draft {
    Draft(a.name, a.birthDate, a.phone, a.job, a.interviewDate, a.interviewTime, a.location, a.notes)
  }

  predicate UniqueIds(apps: seq<Applicant>) {
    forall i, j :: 0 <= i < j < |apps| ==> apps[i].id != apps[j].id
  }

  /** `Math.max(...apps.map(a => a.id), 0)`: the largest id, or 0 for none or
      only negative ones. */
  function MaxId(apps: seq<Applicant>): (m: nat)
    ensures forall i :: 0 <= i < |apps| ==> apps[i].id <= m
    ensures m == 0 || exists i :: 0 <= i < |apps| && apps[i].id == m
  {
    if apps == [] then 0
    else
      var rest := MaxId(apps[1..]);
      assert forall i :: 1 <= i < |apps| ==> apps[i] == apps[1..][i - 1];
      if apps[0].id > rest then apps[0].id else rest
  }

  /** The id the add handler gives a new record: one past the largest. */
  function NextId(apps: seq<Applicant>): (id: int)
    ensures id >= 1
    ensures forall i :: 0 <= i < |apps| ==> apps[i].id < id
  {
    MaxId(apps) + 1
  }

  /** `[...apps, { ...draft, id: newId }]`. */
  function Appended(apps: seq<Applicant>, d: Draft): (r: seq<Applicant>)
    ensures |r| == |apps| + 1 && r[..|apps|] == apps && DraftOf(r[|apps|]) == d
    ensures forall i :: 0 <= i < |apps| ==> apps[i].id < r[|apps|].id
  {
    apps + [WithId(d, NextId(apps))]
  }

  /** `apps.filter(a => a.id !== id)`. */
  function Removed(apps: seq<Applicant>, id: int): (r: seq<Applicant>)
    ensures |r| <= |apps|
  {
    if apps == [] then []
    else (if apps[0].id == id then [] else [apps[0]]) + Removed(apps[1..], id)
  }

  /** `apps.map(a => a.id === editingId ? { ...draft, id: editingId } : a)`. */
  function Replaced(apps: seq<Applicant>, editingId: Option<int>, d: Draft): (r: seq<Applicant>)
    ensures |r| == |apps|
  {
    seq(|apps|, i requires 0 <= i < |apps| =>
      if editingId == Some(apps[i].id) then WithId(d, apps[i].id) else apps[i])
  }

  // ---------------------------------------------------------------------------
  // Add

  /** Adding keeps every earlier record in place, ends with the draft under an id
      no earlier record has, and so keeps the ids unique. */
  lemma AppendedSpec(apps: seq<Applicant>, d: Draft)
    ensures var r := Appended(apps, d);
            && |r| == |apps| + 1
            && r[..|apps|] == apps
            && DraftOf(r[|apps|]) == d
            && r[|apps|].id == MaxId(apps) + 1
            && (forall i :: 0 <= i < |apps| ==> r[i].id != r[|apps|].id)
            && (UniqueIds(apps) ==> UniqueIds(r))
  {
  }

  // ---------------------------------------------------------------------------
  // Delete

  /** Deleting keeps exactly the records whose id differs. */
  lemma {:induction false} RemovedMembers(apps: seq<Applicant>, id: int, a: Applicant)
    ensures a in Removed(apps, id) <==> a in apps && a.id != id
  {
    if apps != [] {
      RemovedMembers(apps[1..], id, a);
      assert apps == [apps[0]] + apps[1..];
    }
  }

  /** Deleting works record by record, so it keeps the survivors in their order. */
  lemma {:induction false} RemovedConcat(a: seq<Applicant>, b: seq<Applicant>, id: int)
    ensures Removed(a + b, id) == Removed(a, id) + Removed(b, id)
  {
    if a == [] {
      assert a + b == b;
    } else {
      assert (a + b)[0] == a[0] && (a + b)[1..] == a[1..] + b;
      RemovedConcat(a[1..], b, id);
    }
  }

  /** Deleting an id no record has changes nothing. */
  lemma {:induction false} RemovedAbsent(apps: seq<Applicant>, id: int)
    requires forall i :: 0 <= i < |apps| ==> apps[i].id != id
    ensures Removed(apps, id) == apps
  {
    if apps != [] {
      RemovedAbsent(apps[1..], id);
    }
  }

  /** Deleting keeps the ids unique. */
  lemma {:induction false} RemovedUnique(apps: seq<Applicant>, id: int)
    requires UniqueIds(apps)
    ensures UniqueIds(Removed(apps, id))
  {
    if apps != [] {
      RemovedUnique(apps[1..], id);
      var rest := Removed(apps[1..], id);
      forall a | a in rest ensures a.id != apps[0].id {
        RemovedMembers(apps[1..], id, a);
      }
    }
  }

  /** With unique ids, deleting the id of record k removes that record and no other. */
  lemma {:induction false} RemovedExactlyOne(apps: seq<Applicant>, k: nat)
    requires UniqueIds(apps) && k < |apps|
    ensures Removed(apps, apps[k].id) == apps[..k] + apps[k + 1..]
  {
    var id := apps[k].id;
    var rest := apps[1..];
    if k == 0 {
      assert forall i :: 0 <= i < |rest| ==> rest[i] == apps[i + 1];
      RemovedAbsent(rest, id);
    } else {
      assert rest[k - 1] == apps[k];
      RemovedExactlyOne(rest, k - 1);
      assert rest[..k - 1] + rest[k..] == apps[1..k] + apps[k + 1..];
      assert apps[..k] == [apps[0]] + apps[1..k];
    }
  }

  // ---------------------------------------------------------------------------
  // Update

  /** Updating keeps the length, the order and every id; the record whose id is
      `editingId` takes the draft's fields and every other record is unchanged. */
  lemma ReplacedSpec(apps: seq<Applicant>, editingId: Option<int>, d: Draft)
    ensures var r := Replaced(apps, editingId, d);
            && |r| == |apps|
            && (forall i :: 0 <= i < |apps| ==> r[i].id == apps[i].id)
            && (forall i :: 0 <= i < |apps| && editingId != Some(apps[i].id) ==> r[i] == apps[i])
            && (forall i :: 0 <= i < |apps| && editingId == Some(apps[i].id) ==> DraftOf(r[i]) == d)
            && (UniqueIds(apps) ==> UniqueIds(r))
  {
  }

  /** With unique ids, updating record k's id replaces that record and no other. */
  lemma ReplacedExactlyOne(apps: seq<Applicant>, k: nat, d: Draft)
    requires UniqueIds(apps) && k < |apps|
    ensures Replaced(apps, Some(apps[k].id), d) == apps[..k] + [WithId(d, apps[k].id)] + apps[k + 1..]
  {
    var r := Replaced(apps, Some(apps[k].id), d);
    var s := apps[..k] + [WithId(d, apps[k].id)] + apps[k + 1..];
    assert |r| == |s|;
    forall i | 0 <= i < |r| ensures r[i] == s[i] {
      if i < k {
        assert s[i] == apps[i];
      } else if i > k {
        assert s[i] == apps[i];
      }
    }
  }

  /** Updating with no record under `editingId` (or none being edited) changes nothing. */
  lemma ReplacedAbsent(apps: seq<Applicant>, editingId: Option<int>, d: Draft)
    requires forall i :: 0 <= i < |apps| ==> editingId != Some(apps[i].id)
    ensures Replaced(apps, editingId, d) == apps
  {
  }

  // ---------------------------------------------------------------------------
  // How the operations combine

  /** Deleting the record just added gives back the table as it was. */
  lemma RemoveAppended(apps: seq<Applicant>, d: Draft)
    ensures Removed(Appended(apps, d), NextId(apps)) == apps
  {
    RemovedConcat(apps, [WithId(d, NextId(apps))], NextId(apps));
    RemovedAbsent(apps, NextId(apps));
  }

  /** Saving an edit of a record without changing any field gives back the table as it was. */
  lemma ReplacedUnchanged(apps: seq<Applicant>, a: Applicant)
    requires a in apps && UniqueIds(apps)
    ensures Replaced(apps, Some(a.id), DraftOf(a)) == apps
  {
    var k :| 0 <= k < |apps| && apps[k] == a;
    ReplacedExactlyOne(apps, k, DraftOf(a));
    assert WithId(DraftOf(a), a.id) == a;
    assert apps == apps[..k] + [a] + apps[k + 1..];
  }

  /** Once the record being edited is deleted, saving the edit changes no record. */
  lemma ReplacedAfterRemoved(apps: seq<Applicant>, id: int, d: Draft)
    ensures Replaced(Removed(apps, id), Some(id), d) == Removed(apps, id)
  {
    var r := Removed(apps, id);
    forall i | 0 <= i < |r| ensures r[i].id != id {
      RemovedMembers(apps, id, r[i]);
    }
    ReplacedAbsent(r, Some(id), d);
  }

  /** Deleting the record just added frees its id: the next record added
      receives that id again. */
  lemma AddedIdReusedAfterDelete(apps: seq<Applicant>, d: Draft)
    ensures NextId(Removed(Appended(apps, d), NextId(apps))) == NextId(apps)
  {
    RemoveAppended(apps, d);
  }

  /** Ids are not reserved: once the record with the largest id is deleted, the
      next record added may receive that id again. */
  lemma DeletedLargestIdReusable(apps: seq<Applicant>, k: nat)
    requires UniqueIds(apps) && k < |apps| && apps[k].id == MaxId(apps) && apps[k].id >= 1
    ensures NextId(Removed(apps, apps[k].id)) <= apps[k].id
  {
    var r := Removed(apps, apps[k].id);
    if MaxId(r) != 0 {
      var i :| 0 <= i < |r| && r[i].id == MaxId(r);
      RemovedMembers(apps, apps[k].id, r[i]);
    }
  }
}
