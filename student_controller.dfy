/** The student handlers: each validates first and then performs its writes on the
    students and teachers collections in source order. */
module StudentController {
  import opened Common
  import opened Text
  import opened Tables
  import opened TeacherModel
  import opened StudentModel
  import opened Integrity
  import opened Db

  /** The `Student.findOne({ $or: [{ number }, { email }] })` lookup; the filter values
      go through the `trim` setter, and an absent field matches no stored document. */
  predicate DuplicateStudent(S: map<Id, Student>, number: Option<string>, email: Option<string>) {
    exists sid :: sid in S &&
      ((number.Some? && S[sid].number == Trim(number.value)) || (email.Some? && S[sid].email == Trim(email.value)))
  }

  /** `createStudent`: 400 without a teacher id, 400 on a duplicate number or email
      (checked before the teacher), 404 for an unknown teacher, 500 when the schema
      rejects the document; otherwise the student is saved and then `$addToSet` puts
      its id on the teacher's roster. */
  method CreateStudent(db: Database, form: StudentForm, newId: Id) returns (status: Status)
    requires newId !in db.students
    modifies db`students, db`teachers
    ensures !Truthy(form.teacherId) ==> status == BadRequest
    ensures Truthy(form.teacherId) && DuplicateStudent(old(db.students), form.number, form.email)
            ==> status == BadRequest
    ensures (Truthy(form.teacherId) && !DuplicateStudent(old(db.students), form.number, form.email)
             && form.teacherId.value !in old(db.teachers)) ==> status == NotFound
    ensures (Truthy(form.teacherId) && !DuplicateStudent(old(db.students), form.number, form.email)
             && form.teacherId.value in old(db.teachers) && !StudentValidates(form)) ==> status == ServerError
    ensures status == Created <==>
            Truthy(form.teacherId) && !DuplicateStudent(old(db.students), form.number, form.email)
            && form.teacherId.value in old(db.teachers) && StudentValidates(form)
    ensures status != Created ==> db.students == old(db.students) && db.teachers == old(db.teachers)
    ensures status == Created ==>
            var tid := form.teacherId.value;
            && db.students == old(db.students)[newId := NewStudent(form)]
            && db.teachers == SetRoster(old(db.teachers), tid, Added(old(db.teachers)[tid].students, newId))
            && db.students[newId].teacher == Some(tid)
            && newId in db.teachers[tid].students
            && (newId !in old(db.teachers)[tid].students ==> multiset(db.teachers[tid].students)[newId] == 1)
    ensures status == Created && old(Consistent(db.teachers, db.students)) ==> Consistent(db.teachers, db.students)
    ensures status == Created && old(StudentsUnique(db.students)) ==> StudentsUnique(db.students)
  {
    ghost var T0, S0 := db.teachers, db.students;
    if !Truthy(form.teacherId) {
      return BadRequest;
    }
    if DuplicateStudent(db.students, form.number, form.email) {
      return BadRequest;
    }
    var tid := form.teacherId.value;
    if tid !in db.teachers {
      return NotFound;
    }
    if !StudentValidates(form) {
      return ServerError;
    }
    db.students := db.students[newId := NewStudent(form)];
    var roster := AddStudent(db.teachers[tid].students, newId);   // $addToSet
    db.teachers := db.teachers[tid := db.teachers[tid].(students := roster)];
    status := Created;
    if Consistent(T0, S0) {
      CreateStudentKeepsConsistent(T0, S0, tid, newId, NewStudent(form));
    }
    if StudentsUnique(S0) {
      CreateStudentKeepsUnique(S0, form, newId);
    }
  }

  /** A student that passes the duplicate check never breaks the unique indexes. */
  lemma CreateStudentKeepsUnique(S: map<Id, Student>, form: StudentForm, newId: Id)
    requires StudentsUnique(S) && newId !in S
    requires !DuplicateStudent(S, form.number, form.email) && StudentValidates(form)
    ensures StudentsUnique(S[newId := NewStudent(form)])
  {
    TrimIdempotent(form.number.value);
  }

  /** Another student already holds the (trimmed) number the update asks for. */
  predicate NumberTakenByOther(S: map<Id, Student>, id: Id, number: string) {
    exists other :: other in S && other != id && S[other].number == Trim(number)
  }

  /** The update is refused as a number clash: a truthy number that differs from the
      stored one and that another student holds. */
  predicate StudentNumberConflict(S: map<Id, Student>, id: Id, f: StudentForm)
    requires id in S
  {
    Truthy(f.number) && f.number.value != S[id].number && NumberTakenByOther(S, id, f.number.value)
  }

  /** The update validators (`runValidators: true`) on the `$set` paths: the four
      trimmed strings stay non-empty and a new password has at least six characters. */
  predicate StudentUpdateValidates(s: Student, f: StudentForm) {
    && Trim(OrElse(f.name, s.name)) != "" && Trim(OrElse(f.number, s.number)) != ""
    && Trim(OrElse(f.course, s.course)) != "" && Trim(OrElse(f.address, s.address)) != ""
    && (Truthy(f.password) ==> |f.password.value| >= MinPasswordLength)
  }

  /** The `updateData` of `updateStudent`: every omitted (falsy) field keeps its stored
      value; email and every roster are not part of it. */
  function UpdatedStudent(s: Student, f: StudentForm): (u: Student)
    ensures u.email == s.email
    ensures !Truthy(f.name) ==> u.name == Trim(s.name)
    ensures !Truthy(f.teacherId) ==> u.teacher == s.teacher
    ensures Truthy(f.teacherId) ==> u.teacher == Some(f.teacherId.value)
    ensures !Truthy(f.number) ==> u.number == Trim(s.number)
    ensures !Truthy(f.course) ==> u.course == Trim(s.course)
    ensures !Truthy(f.address) ==> u.address == Trim(s.address)
    ensures !Truthy(f.password) ==> u.password == s.password
    ensures Truthy(f.name) ==> u.name == Trim(f.name.value)
    ensures Truthy(f.number) ==> u.number == Trim(f.number.value)
    ensures Truthy(f.course) ==> u.course == Trim(f.course.value)
    ensures Truthy(f.address) ==> u.address == Trim(f.address.value)
    ensures Truthy(f.password) ==> u.password == f.password.value
  {
    s.(name := Trim(OrElse(f.name, s.name)),
       number := Trim(OrElse(f.number, s.number)),
       course := Trim(OrElse(f.course, s.course)),
       address := Trim(OrElse(f.address, s.address)),
       teacher := if Truthy(f.teacherId) then Some(f.teacherId.value) else s.teacher,
       password := if Truthy(f.password) then f.password.value else s.password)
  }

  /** `updateStudent`: 404 for a missing student, 400 for a number another student
      holds, 404 for a given but unknown teacher, 500 when an update validator fails;
      otherwise only the student record changes. A new `teacherId` rewrites
      `student.teacher` and no roster, so the mirror survives only if the reference
      stays the same. */
  method UpdateStudent(db: Database, id: Id, form: StudentForm) returns (status: Status)
    modifies db`students
    ensures id !in old(db.students) ==> status == NotFound
    ensures id in old(db.students) && StudentNumberConflict(old(db.students), id, form) ==> status == BadRequest
    ensures (id in old(db.students) && !StudentNumberConflict(old(db.students), id, form)
             && Truthy(form.teacherId) && form.teacherId.value !in db.teachers) ==> status == NotFound
    ensures (id in old(db.students) && !StudentNumberConflict(old(db.students), id, form)
             && (Truthy(form.teacherId) ==> form.teacherId.value in db.teachers)
             && !StudentUpdateValidates(old(db.students)[id], form)) ==> status == ServerError
    ensures status == Ok <==>
            id in old(db.students) && !StudentNumberConflict(old(db.students), id, form)
            && (Truthy(form.teacherId) ==> form.teacherId.value in db.teachers)
            && StudentUpdateValidates(old(db.students)[id], form)
    ensures status != Ok ==> db.students == old(db.students)
    ensures status == Ok ==> db.students == old(db.students)[id := UpdatedStudent(old(db.students)[id], form)]
    ensures status == Ok && old(Consistent(db.teachers, db.students)) ==>
            (Consistent(db.teachers, db.students) <==> db.students[id].teacher == old(db.students)[id].teacher)
    ensures status == Ok && old(StudentsUnique(db.students)) ==> StudentsUnique(db.students)
  {
    if id !in db.students {
      return NotFound;
    }
    var s := db.students[id];
    if Truthy(form.number) && form.number.value != s.number && NumberTakenByOther(db.students, id, form.number.value) {
      return BadRequest;
    }
    if Truthy(form.teacherId) && form.teacherId.value !in db.teachers {
      return NotFound;
    }
    if !StudentUpdateValidates(s, form) {
      return ServerError;
    }
    ghost var S0 := db.students;
    db.students := db.students[id := UpdatedStudent(s, form)];
    status := Ok;
    if Consistent(db.teachers, S0) {
      UpdateStudentConsistentIff(db.teachers, S0, id, UpdatedStudent(s, form));
    }
    if StudentsUnique(S0) {
      UpdateStudentKeepsUnique(S0, id, form);
    }
  }

  /** An update that passes the number check never breaks the unique indexes: the
      number either stays what it was or is one no other student holds, and the
      email never changes. */
  lemma UpdateStudentKeepsUnique(S: map<Id, Student>, id: Id, form: StudentForm)
    requires StudentsUnique(S) && id in S
    requires !StudentNumberConflict(S, id, form)
    ensures StudentsUnique(S[id := UpdatedStudent(S[id], form)])
  {
    var s := S[id];
    var u := UpdatedStudent(s, form);
    TrimIdempotent(OrElse(form.number, s.number));
    assert u.email == s.email;
    assert u.number == s.number || forall other :: other in S && other != id ==> S[other].number != u.number by {
      if !Truthy(form.number) || form.number.value == s.number {
        assert Trim(s.number) == s.number;
      } else {
        assert !NumberTakenByOther(S, id, form.number.value);
      }
    }
    var S' := S[id := u];
    forall a, b | a in S' && b in S' && a != b ensures S'[a].number != S'[b].number && S'[a].email != S'[b].email {
      if a != id && b != id {
        assert S'[a] == S[a] && S'[b] == S[b];
      }
    }
  }

  /** `deleteStudent`: 404 if absent; otherwise `$pull` the id from the roster of the
      teacher it names (if any), then delete the record. Nothing else changes. */
  method DeleteStudent(db: Database, id: Id) returns (status: Status)
    modifies db`students, db`teachers
    ensures status == NotFound <==> id !in old(db.students)
    ensures status == NotFound || status == Ok
    ensures status == NotFound ==> db.students == old(db.students) && db.teachers == old(db.teachers)
    ensures status == Ok ==>
            && db.teachers == PulledFrom(old(db.teachers), old(db.students)[id].teacher, id)
            && db.students == old(db.students) - {id}
    ensures status == Ok ==>
            var ref := old(db.students)[id].teacher;
            ref.Some? && ref.value in db.teachers ==> id !in db.teachers[ref.value].students
    ensures status == Ok && old(Consistent(db.teachers, db.students)) ==> Consistent(db.teachers, db.students)
  {
    if id !in db.students {
      return NotFound;
    }
    ghost var T0, S0 := db.teachers, db.students;
    var s := db.students[id];
    if s.teacher.Some? && s.teacher.value in db.teachers {
      var t := s.teacher.value;
      WithoutMembers(db.teachers[t].students, id, id);
      db.teachers := SetRoster(db.teachers, t, Without(db.teachers[t].students, id));   // $pull
    }
    db.students := db.students - {id};
    status := Ok;
    if Consistent(T0, S0) {
      DeleteStudentKeepsConsistent(T0, S0, id);
    }
  }

  /** `getStudentsByTeacher`: exactly the students whose `teacher` is `tid`. */
  method GetStudentsByTeacher(db: Database, tid: Id) returns (r: seq<(Id, Student)>)
    ensures forall p :: p in r <==> p.0 in db.students && p.1 == db.students[p.0] && p.1.teacher == Some(tid)
    ensures |r| == |KeysWhere(db.students, TaughtBy(tid))|
  {
    r := FindByTeacher(db.students, tid);
  }
}
