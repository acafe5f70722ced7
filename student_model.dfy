/** The Student schema: its document, its validators and the `findByTeacher` query. */
module StudentModel {
  import opened Common
  import opened Text
  import opened Tables
  import opened TeacherModel

  /** A stored student. `teacher` is optional: the schema requires it on `save()`, but
      `deleteTeacher` and `removeStudentFromTeacher` `$unset` it afterwards. The schema
      has no `assign` path, so an `assign` in a request body is never stored. */
  datatype Student = Student(
    name: string,
    number: string,
    email: string,
    course: string,
    address: string,
    password: string,
    teacher: Option<Id>)

  /** The body fields of `createStudent` and `updateStudent`. */
  datatype StudentForm = StudentForm(
    name: Option<string>,
    number: Option<string>,
    email: Option<string>,
    course: Option<string>,
    assign: Option<string>,
    address: Option<string>,
    password: Option<string>,
    teacherId: Option<Id>)

  /** Every validator of the schema passes on `save()`: the five trimmed strings are
      present and non-empty, the teacher reference is present and the password has
      at least six characters. */
  predicate StudentValidates(f: StudentForm) {
    && RequiredTrimmed(f.name) && RequiredTrimmed(f.number) && RequiredTrimmed(f.email)
    && RequiredTrimmed(f.course) && RequiredTrimmed(f.address)
    && PasswordAccepted(f.password)
    && f.teacherId.Some?
  }

  /** The document `save()` stores. */
  function NewStudent(f: StudentForm): (s: Student)
    requires StudentValidates(f)
    ensures s.name != "" && s.number != "" && s.email != "" && s.course != "" && s.address != ""
    ensures |s.password| >= MinPasswordLength
    ensures s.teacher == Some(f.teacherId.value)
    ensures s.name == Trim(f.name.value) && s.number == Trim(f.number.value) && s.email == Trim(f.email.value)
    ensures s.course == Trim(f.course.value) && s.address == Trim(f.address.value)
    ensures s.password == f.password.value
    ensures Trim(s.name) == s.name && Trim(s.number) == s.number && Trim(s.email) == s.email
    ensures Trim(s.course) == s.course && Trim(s.address) == s.address
  {
    TrimIdempotent(f.name.value); TrimIdempotent(f.number.value); TrimIdempotent(f.email.value);
    TrimIdempotent(f.course.value); TrimIdempotent(f.address.value);
    Student(Trim(f.name.value), Trim(f.number.value), Trim(f.email.value),
            Trim(f.course.value), Trim(f.address.value), f.password.value,
            Some(f.teacherId.value))
  }

  /** The `unique` indexes on number and email, together with the `trim` setter's
      effect on every stored number. */
  ghost predicate StudentsUnique(S: map<Id, Student>) {
    && (forall a, b :: a in S && b in S && a != b ==> S[a].number != S[b].number && S[a].email != S[b].email)
    && (forall a :: a in S ==> Trim(S[a].number) == S[a].number)
  }

  /** The filter `{ teacher: teacherId }`. */
  function TaughtBy(tid: Id): Student -> bool {
    (s: Student) => s.teacher == Some(tid)
  }

  /** `Student.findByTeacher(teacherId)`: exactly the students whose `teacher` is
      `tid`, each once. */
  method FindByTeacher(students: map<Id, Student>, tid: Id) returns (r: seq<(Id, Student)>)
    ensures forall p :: p in r <==> p.0 in students && p.1 == students[p.0] && p.1.teacher == Some(tid)
    ensures |r| == |KeysWhere(students, TaughtBy(tid))|
  {
    r := Select(students, TaughtBy(tid));
  }
}
