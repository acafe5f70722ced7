/** The Teacher schema: its document, its validators, and the two roster methods
    `addStudent` and `removeStudent` that rewrite `students` on the document. */
module TeacherModel {
  import opened Common
  import opened Text

  datatype Teacher = Teacher(
    name: string,
    number: string,
    email: string,
    course: string,
    address: string,
    password: string,
    students: seq<Id>)

  /** `minlength` of the password path. */
  const MinPasswordLength: nat := 6

  /** `required` plus `minlength: 6` on the (untrimmed) password. */
  predicate PasswordAccepted(p: Option<string>) {
    p.Some? && |p.value| >= MinPasswordLength
  }

  /** The body fields `createTeacher` passes to `new Teacher(...)`. */
  datatype TeacherForm = TeacherForm(
    name: Option<string>,
    number: Option<string>,
    email: Option<string>,
    course: Option<string>,
    address: Option<string>,
    password: Option<string>)

  /** Every validator of the schema passes on `save()`. */
  predicate TeacherValidates(f: TeacherForm) {
    && RequiredTrimmed(f.name) && RequiredTrimmed(f.number) && RequiredTrimmed(f.email)
    && RequiredTrimmed(f.course) && RequiredTrimmed(f.address)
    && PasswordAccepted(f.password)
  }

  /** The document `save()` stores: trimmed strings and an empty roster. */
  function NewTeacher(f: TeacherForm): (t: Teacher)
    requires TeacherValidates(f)
    ensures t.name != "" && t.number != "" && t.email != "" && t.course != "" && t.address != ""
    ensures |t.password| >= MinPasswordLength
    ensures t.students == []
    ensures t.name == Trim(f.name.value) && t.number == Trim(f.number.value) && t.email == Trim(f.email.value)
    ensures t.course == Trim(f.course.value) && t.address == Trim(f.address.value)
    ensures t.password == f.password.value
    ensures Trim(t.name) == t.name && Trim(t.number) == t.number && Trim(t.email) == t.email
    ensures Trim(t.course) == t.course && Trim(t.address) == t.address
  {
    TrimIdempotent(f.name.value); TrimIdempotent(f.number.value); TrimIdempotent(f.email.value);
    TrimIdempotent(f.course.value); TrimIdempotent(f.address.value);
    Teacher(Trim(f.name.value), Trim(f.number.value), Trim(f.email.value),
            Trim(f.course.value), Trim(f.address.value), f.password.value, [])
  }

  /** The `unique` indexes on number and email, together with the `trim` setter's
      effect on every stored number. */
  ghost predicate TeachersUnique(T: map<Id, Teacher>) {
    && (forall a, b :: a in T && b in T && a != b ==> T[a].number != T[b].number && T[a].email != T[b].email)
    && (forall a :: a in T ==> Trim(T[a].number) == T[a].number)
  }

  // ---------------------------------------------------------------------------
  // The roster

  predicate NoDuplicates(s: seq<Id>) {
    forall i, j :: 0 <= i < j < |s| ==> s[i] != s[j]
  }

  /** The roster after `addStudent(id)` (and after `$addToSet`). */
  function Added(roster: seq<Id>, id: Id): seq<Id> {
    if id in roster then roster else roster + [id]
  }

  /** The roster after `removeStudent(id)` (and after `$pull`): every other id,
      in the same order. */
  function Without(roster: seq<Id>, id: Id): seq<Id> {
    if roster == [] then []
    else (if roster[0] == id then [] else [roster[0]]) + Without(roster[1..], id)
  }

  /** `addStudent`: push the id unless `includes` finds it already. */
  method AddStudent(roster: seq<Id>, id: Id) returns (r: seq<Id>)
    ensures r == Added(roster, id)
    ensures id in r
    ensures id in roster ==> r == roster
    ensures id !in roster ==> |r| == |roster| + 1 && r[..|roster|] == roster && r[|roster|] == id
  {
    if id !in roster {
      r := roster + [id];
    } else {
      r := roster;
    }
  }

  /** `removeStudent`: keep the ids that differ from `id`, one by one. */
  method RemoveStudent(roster: seq<Id>, id: Id) returns (r: seq<Id>)
    ensures r == Without(roster, id)
    ensures id !in r
  {
    r := [];
    for i := 0 to |roster|
      invariant r == Without(roster[..i], id)
    {
      WithoutAppend(roster[..i], [roster[i]], id);
      assert roster[..i + 1] == roster[..i] + [roster[i]];
      if roster[i] != id {
        r := r + [roster[i]];
      }
    }
    assert roster[..|roster|] == roster;
    WithoutMembers(roster, id, id);
  }

  /** Filtering distributes over concatenation, so the kept ids stay in their
      original relative order. */
  lemma {:induction false} WithoutAppend(a: seq<Id>, b: seq<Id>, id: Id)
    ensures Without(a + b, id) == Without(a, id) + Without(b, id)
  {
    if a == [] {
      assert a + b == b;
    } else {
      assert (a + b)[1..] == a[1..] + b;
      WithoutAppend(a[1..], b, id);
    }
  }

  /** Every occurrence of `id` goes, every other id keeps its multiplicity. */
  lemma {:induction false} WithoutMultiset(s: seq<Id>, id: Id)
    ensures multiset(Without(s, id)) == multiset(s)[id := 0]
  {
    if s != [] {
      WithoutMultiset(s[1..], id);
      assert s == [s[0]] + s[1..];
    }
  }

  lemma WithoutMembers(s: seq<Id>, id: Id, x: Id)
    ensures x in Without(s, id) <==> x in s && x != id
  {
    WithoutMultiset(s, id);
    assert x in Without(s, id) <==> x in multiset(Without(s, id));
    assert x in s <==> x in multiset(s);
  }

  /** Removing an id that is not on the roster changes nothing. */
  lemma {:induction false} WithoutNonMember(s: seq<Id>, id: Id)
    requires id !in s
    ensures Without(s, id) == s
  {
    if s != [] {
      WithoutNonMember(s[1..], id);
      assert s == [s[0]] + s[1..];
    }
  }

  /** Round trip: `addStudent(id)` then `removeStudent(id)` restores a roster that did
      not hold `id`. */
  lemma AddThenRemove(s: seq<Id>, id: Id)
    requires id !in s
    ensures Without(Added(s, id), id) == s
  {
    WithoutAppend(s, [id], id);
    WithoutNonMember(s, id);
    assert Without([id], id) == [];
  }

  /** Adding twice is adding once. */
  lemma AddedIdempotent(s: seq<Id>, id: Id)
    ensures Added(Added(s, id), id) == Added(s, id)
  {
  }

  /** Both roster methods keep a roster free of repeated ids. */
  lemma AddedNoDuplicates(s: seq<Id>, id: Id)
    requires NoDuplicates(s)
    ensures NoDuplicates(Added(s, id))
  {
  }

  lemma {:induction false} WithoutNoDuplicates(s: seq<Id>, id: Id)
    requires NoDuplicates(s)
    ensures NoDuplicates(Without(s, id))
  {
    if s != [] {
      var tail := s[1..];
      WithoutNoDuplicates(tail, id);
      WithoutMembers(tail, id, s[0]);
    }
  }
}
