/**
 * The applicant lookup: a strict three-factor exact match of name, birth date
 * and phone over the applicant table, in table order.
 */
module Matcher {
  import opened Wrappers
  import opened Text
  import opened Normalize
  import opened Records

  /** The search form. */
  datatype Query = Query(name: string, birthDate: string, phone: string)

  /** All three factors agree: trimmed names, normalised birth dates and digit-only phones. */
  predicate Matches(q: Query, a: Applicant, parse: DateParser): (b: bool)
    ensures b ==> (Trim(q.name) == "" <==> Trim(a.name) == "")
    ensures b ==> (Trim(q.birthDate) == "" <==> Trim(a.birthDate) == "")
  {
    && Trim(a.name) == Trim(q.name)
    && NormalizeDate(a.birthDate, parse) == NormalizeDate(q.birthDate, parse)
    && NormalizePhoneDigits(a.phone) == NormalizePhoneDigits(q.phone)
  }

  /** `Array.prototype.find`: the first element satisfying `p`, or None. */
  function Find<T>(xs: seq<T>, p: T -> bool): (r: Option<T>)
    ensures r.None? <==> forall i :: 0 <= i < |xs| ==> !p(xs[i])
    ensures r.Some? ==> exists i :: 0 <= i < |xs| && xs[i] == r.value && p(xs[i])
                                    && forall j :: 0 <= j < i ==> !p(xs[j])
  {
    if xs == [] then None
    else if p(xs[0]) then Some(xs[0])
    else
      var r := Find(xs[1..], p);
      assert forall i :: 1 <= i < |xs| ==> xs[i] == xs[1..][i - 1];
      r
  }

  /** Two tests that agree on every element find the same element. */
  lemma {:induction false} FindAgrees<T>(xs: seq<T>, p1: T -> bool, p2: T -> bool)
    requires forall x :: x in xs ==> p1(x) == p2(x)
    ensures Find(xs, p1) == Find(xs, p2)
  {
    if xs != [] {
      FindAgrees(xs[1..], p1, p2);
    }
  }

  /** `handleSearch`: the first applicant that matches, or None for "not found". */
  function Search(q: Query, apps: seq<Applicant>, parse: DateParser): (r: Option<Applicant>)
    ensures r.None? <==> forall i :: 0 <= i < |apps| ==> !Matches(q, apps[i], parse)
    ensures r.Some? ==> exists i :: 0 <= i < |apps| && apps[i] == r.value && Matches(q, apps[i], parse)
                                    && forall j :: 0 <= j < i ==> !Matches(q, apps[j], parse)
  {
    Find(apps, a => Matches(q, a, parse))
  }

  /** Two queries that match the same applicants find the same one. */
  lemma SearchAgrees(q1: Query, q2: Query, apps: seq<Applicant>, parse: DateParser)
    requires forall a :: a in apps ==> (Matches(q1, a, parse) <==> Matches(q2, a, parse))
    ensures Search(q1, apps, parse) == Search(q2, apps, parse)
  {
    FindAgrees(apps, a => Matches(q1, a, parse), a => Matches(q2, a, parse));
  }

  /** The phone factor compares digits only: a query phone typed with the display
      hyphens finds the same applicant as the bare digits. */
  lemma SearchIgnoresPhoneLayout(q: Query, apps: seq<Applicant>, parse: DateParser)
    requires |NormalizePhoneDigits(q.phone)| <= MaxPhoneDigits
    ensures Search(q.(phone := FormatPhoneNumber(q.phone)), apps, parse) == Search(q, apps, parse)
  {
    FormatPhoneDigits(q.phone);
    var d := NormalizePhoneDigits(q.phone);
    assert d[..Min(MaxPhoneDigits, |d|)] == d;
    SearchAgrees(q.(phone := FormatPhoneNumber(q.phone)), q, apps, parse);
  }

  /** White space around the query name does not change the result. */
  lemma SearchIgnoresNameSpacing(q: Query, apps: seq<Applicant>, parse: DateParser)
    ensures Search(q.(name := Trim(q.name)), apps, parse) == Search(q, apps, parse)
  {
    TrimIdempotent(q.name);
    SearchAgrees(q.(name := Trim(q.name)), q, apps, parse);
  }

  /** A query that differs from an applicant in any one factor does not match it. */
  lemma OneFactorMisses(q: Query, a: Applicant, parse: DateParser)
    requires Trim(a.name) != Trim(q.name)
             || NormalizeDate(a.birthDate, parse) != NormalizeDate(q.birthDate, parse)
             || NormalizePhoneDigits(a.phone) != NormalizePhoneDigits(q.phone)
    ensures Search(q, [a], parse) == None
  {
  }

  /** Searching with a record's own name, birth date and phone finds a record:
      that one, or an earlier record with the same three factors. */
  lemma SearchFindsOwnRecord(apps: seq<Applicant>, k: nat, parse: DateParser)
    requires k < |apps|
    ensures var r := Search(Query(apps[k].name, apps[k].birthDate, apps[k].phone), apps, parse);
            r.Some? && Matches(Query(apps[k].name, apps[k].birthDate, apps[k].phone), r.value, parse)
  {
    assert Matches(Query(apps[k].name, apps[k].birthDate, apps[k].phone), apps[k], parse);
  }
}
