/** The teacher handlers: teacher CRUD, the roster/back-reference handlers, the
    recurring-class template and the per-teacher class listing, project scoring,
    the assignment listing and the two upload filters. */
module TeacherController {
  import opened Common
  import opened Text
  import opened Tables
  import opened Sorting
  import opened TeacherModel
  import opened StudentModel
  import opened ClassModel
  import opened Schemas
  import opened Integrity
  import opened Db

  // ---------------------------------------------------------------------------
  // Teacher records

  /** `Teacher.findOne({ $or: [{ number }, { email }] })` with trimmed filter values. */
  predicate DuplicateTeacher(T: map<Id, Teacher>, number: Option<string>, email: Option<string>) {
    exists tid :: tid in T &&
      ((number.Some? && T[tid].number == Trim(number.value)) || (email.Some? && T[tid].email == Trim(email.value)))
  }

  /** `createTeacher`: 400 when any teacher has the same number or email, 500 when the
      schema rejects the document, otherwise a new teacher with an empty roster. */
  method CreateTeacher(db: Database, form: TeacherForm, newId: Id) returns (status: Status)
    requires newId !in db.teachers
    modifies db`teachers
    ensures DuplicateTeacher(old(db.teachers), form.number, form.email) ==> status == BadRequest
    ensures !DuplicateTeacher(old(db.teachers), form.number, form.email) && !TeacherValidates(form)
            ==> status == ServerError
    ensures status == Created <==> !DuplicateTeacher(old(db.teachers), form.number, form.email) && TeacherValidates(form)
    ensures status != Created ==> db.teachers == old(db.teachers)
    ensures status == Created ==> db.teachers == old(db.teachers)[newId := NewTeacher(form)]
    ensures status == Created ==> db.teachers[newId].students == []
    ensures status == Created && old(Consistent(db.teachers, db.students)) ==> Consistent(db.teachers, db.students)
    ensures status == Created && old(TeachersUnique(db.teachers)) ==> TeachersUnique(db.teachers)
  {
    if DuplicateTeacher(db.teachers, form.number, form.email) {
      return BadRequest;
    }
    if !TeacherValidates(form) {
      return ServerError;
    }
    ghost var T0 := db.teachers;
    db.teachers := db.teachers[newId := NewTeacher(form)];
    status := Created;
    if Consistent(T0, db.students) {
      CreateTeacherKeepsConsistent(T0, db.students, newId, NewTeacher(form));
    }
    if TeachersUnique(T0) {
      CreateTeacherKeepsUnique(T0, form, newId);
    }
  }

  /** A teacher that passes the duplicate check never breaks the unique indexes. */
  lemma CreateTeacherKeepsUnique(T: map<Id, Teacher>, form: TeacherForm, newId: Id)
    requires TeachersUnique(T) && newId !in T
    requires !DuplicateTeacher(T, form.number, form.email) && TeacherValidates(form)
    ensures TeachersUnique(T[newId := NewTeacher(form)])
  {
    TrimIdempotent(form.number.value);
  }

  predicate TeacherNumberTakenByOther(T: map<Id, Teacher>, id: Id, number: string) {
    exists other :: other in T && other != id && T[other].number == Trim(number)
  }

  /** A truthy number that differs from the stored one and that another teacher holds. */
  predicate TeacherNumberConflict(T: map<Id, Teacher>, id: Id, f: TeacherForm)
    requires id in T
  {
    Truthy(f.number) && f.number.value != T[id].number && TeacherNumberTakenByOther(T, id, f.number.value)
  }

  /** The update validators on the `$set` paths. */
  predicate TeacherUpdateValidates(t: Teacher, f: TeacherForm) {
    && Trim(OrElse(f.name, t.name)) != "" && Trim(OrElse(f.number, t.number)) != ""
    && Trim(OrElse(f.course, t.course)) != "" && Trim(OrElse(f.address, t.address)) != ""
    && (Truthy(f.password) ==> |f.password.value| >= MinPasswordLength)
  }

  /** The `updateData` of `updateTeacher`: omitted fields keep their values; the email
      in the body is ignored and the roster is not part of the update. */
  function UpdatedTeacher(t: Teacher, f: TeacherForm): (u: Teacher)
    ensures u.email == t.email && u.students == t.students
    ensures !Truthy(f.name) ==> u.name == Trim(t.name)
    ensures !Truthy(f.number) ==> u.number == Trim(t.number)
    ensures !Truthy(f.course) ==> u.course == Trim(t.course)
    ensures !Truthy(f.address) ==> u.address == Trim(t.address)
    ensures !Truthy(f.password) ==> u.password == t.password
    ensures Truthy(f.name) ==> u.name == Trim(f.name.value)
    ensures Truthy(f.number) ==> u.number == Trim(f.number.value)
    ensures Truthy(f.course) ==> u.course == Trim(f.course.value)
    ensures Truthy(f.address) ==> u.address == Trim(f.address.value)
    ensures Truthy(f.password) ==> u.password == f.password.value
  {
    t.(name := Trim(OrElse(f.name, t.name)),
       number := Trim(OrElse(f.number, t.number)),
       course := Trim(OrElse(f.course, t.course)),
       address := Trim(OrElse(f.address, t.address)),
       password := if Truthy(f.password) then f.password.value else t.password)
  }

  /** `updateTeacher`: 404 if absent, 400 for a number another teacher holds, 500 when
      an update validator fails; otherwise only that teacher's profile fields change. */
  method UpdateTeacher(db: Database, id: Id, form: TeacherForm) returns (status: Status)
    modifies db`teachers
    ensures id !in old(db.teachers) ==> status == NotFound
    ensures id in old(db.teachers) && TeacherNumberConflict(old(db.teachers), id, form) ==> status == BadRequest
    ensures (id in old(db.teachers) && !TeacherNumberConflict(old(db.teachers), id, form)
             && !TeacherUpdateValidates(old(db.teachers)[id], form)) ==> status == ServerError
    ensures status == Ok <==>
            id in old(db.teachers) && !TeacherNumberConflict(old(db.teachers), id, form)
            && TeacherUpdateValidates(old(db.teachers)[id], form)
    ensures status != Ok ==> db.teachers == old(db.teachers)
    ensures status == Ok ==> db.teachers == old(db.teachers)[id := UpdatedTeacher(old(db.teachers)[id], form)]
    ensures status == Ok ==> db.teachers[id].email == old(db.teachers)[id].email
                             && db.teachers[id].students == old(db.teachers)[id].students
    ensures status == Ok && old(Consistent(db.teachers, db.students)) ==> Consistent(db.teachers, db.students)
    ensures status == Ok && old(TeachersUnique(db.teachers)) ==> TeachersUnique(db.teachers)
  {
    if id !in db.teachers {
      return NotFound;
    }
    var t := db.teachers[id];
    if Truthy(form.number) && form.number.value != t.number && TeacherNumberTakenByOther(db.teachers, id, form.number.value) {
      return BadRequest;
    }
    if !TeacherUpdateValidates(t, form) {
      return ServerError;
    }
    ghost var T0 := db.teachers;
    db.teachers := db.teachers[id := UpdatedTeacher(t, form)];
    status := Ok;
    if Consistent(T0, db.students) {
      UpdateTeacherKeepsConsistent(T0, db.students, id, UpdatedTeacher(t, form));
    }
    if TeachersUnique(T0) {
      UpdateTeacherKeepsUnique(T0, id, form);
    }
  }

  /** An update that passes the number check never breaks the unique indexes: the
      number either stays what it was or is one no other teacher holds, and the
      email never changes. */
  lemma UpdateTeacherKeepsUnique(T: map<Id, Teacher>, id: Id, form: TeacherForm)
    requires TeachersUnique(T) && id in T
    requires !TeacherNumberConflict(T, id, form)
    ensures TeachersUnique(T[id := UpdatedTeacher(T[id], form)])
  {
    var t := T[id];
    var u := UpdatedTeacher(t, form);
    TrimIdempotent(OrElse(form.number, t.number));
    assert u.email == t.email;
    assert u.number == t.number || forall other :: other in T && other != id ==> T[other].number != u.number by {
      if !Truthy(form.number) || form.number.value == t.number {
        assert Trim(t.number) == t.number;
      } else {
        assert !TeacherNumberTakenByOther(T, id, form.number.value);
      }
    }
    var T' := T[id := u];
    forall a, b | a in T' && b in T' && a != b ensures T'[a].number != T'[b].number && T'[a].email != T'[b].email {
      if a != id && b != id {
        assert T'[a] == T[a] && T'[b] == T[b];
      }
    }
  }

  /** `deleteTeacher`: 404 if absent; otherwise unset `teacher` on every student that
      names it (the students stay), then delete the teacher. */
  method DeleteTeacher(db: Database, tid: Id) returns (status: Status)
    modifies db`teachers, db`students
    ensures status == NotFound <==> tid !in old(db.teachers)
    ensures status == NotFound || status == Ok
    ensures status == NotFound ==> db.teachers == old(db.teachers) && db.students == old(db.students)
    ensures status == Ok ==> db.students == UnsetRefsTo(old(db.students), tid) && db.teachers == old(db.teachers) - {tid}
    ensures status == Ok ==> tid !in db.teachers && db.students.Keys == old(db.students).Keys
    ensures status == Ok ==> forall sid :: sid in db.students ==> db.students[sid].teacher != Some(tid)
    ensures status == Ok && old(Consistent(db.teachers, db.students)) ==> Consistent(db.teachers, db.students)
  {
    if tid !in db.teachers {
      return NotFound;
    }
    ghost var T0, S0 := db.teachers, db.students;
    db.students := UnsetRefsTo(db.students, tid);
    db.teachers := db.teachers - {tid};
    status := Ok;
    if Consistent(T0, S0) {
      DeleteTeacherKeepsConsistent(T0, S0, tid);
    }
  }

  // ---------------------------------------------------------------------------
  // Roster and back-reference

  /** `assignStudentToTeacher`: 404 with no writes when the teacher or the student is
      missing; otherwise `addStudent` on the teacher's roster, then the student's
      `teacher` is overwritten. Every other roster, the previous owner's included,
      is untouched. */
  method AssignStudentToTeacher(db: Database, tid: Id, sid: Id) returns (status: Status)
    modifies db`teachers, db`students
    ensures status == NotFound <==> tid !in old(db.teachers) || sid !in old(db.students)
    ensures status == NotFound || status == Ok
    ensures status == NotFound ==> db.teachers == old(db.teachers) && db.students == old(db.students)
    ensures status == Ok ==>
            && db.teachers == SetRoster(old(db.teachers), tid, Added(old(db.teachers)[tid].students, sid))
            && db.students == SetRef(old(db.students), sid, Some(tid))
    ensures status == Ok ==> db.students[sid].teacher == Some(tid) && sid in db.teachers[tid].students
    ensures status == Ok ==> forall t :: t in old(db.teachers) && t != tid ==> db.teachers[t] == old(db.teachers)[t]
    ensures status == Ok && old(Consistent(db.teachers, db.students)) ==>
            (Consistent(db.teachers, db.students) <==>
             old(db.students)[sid].teacher == None || old(db.students)[sid].teacher == Some(tid))
  {
    if tid !in db.teachers {
      return NotFound;
    }
    if sid !in db.students {
      return NotFound;
    }
    ghost var T0, S0 := db.teachers, db.students;
    var roster := AddStudent(db.teachers[tid].students, sid);
    db.teachers := SetRoster(db.teachers, tid, roster);
    db.students := SetRef(db.students, sid, Some(tid));
    status := Ok;
    if Consistent(T0, S0) {
      AssignConsistentIff(T0, S0, tid, sid);
    }
  }

  /** `removeStudentFromTeacher`: 404 with no writes when either record is missing;
      otherwise `removeStudent` on the roster, then the student's `teacher` is unset
      whichever teacher it named. */
  method RemoveStudentFromTeacher(db: Database, tid: Id, sid: Id) returns (status: Status)
    modifies db`teachers, db`students
    ensures status == NotFound <==> tid !in old(db.teachers) || sid !in old(db.students)
    ensures status == NotFound || status == Ok
    ensures status == NotFound ==> db.teachers == old(db.teachers) && db.students == old(db.students)
    ensures status == Ok ==>
            && db.teachers == SetRoster(old(db.teachers), tid, Without(old(db.teachers)[tid].students, sid))
            && db.students == SetRef(old(db.students), sid, None)
    ensures status == Ok ==> sid !in db.teachers[tid].students && db.students[sid].teacher == None
    ensures status == Ok ==> forall t :: t in old(db.teachers) && t != tid ==> db.teachers[t] == old(db.teachers)[t]
    ensures status == Ok && old(Consistent(db.teachers, db.students)) ==>
            (Consistent(db.teachers, db.students) <==>
             old(db.students)[sid].teacher == None || old(db.students)[sid].teacher == Some(tid))
  {
    if tid !in db.teachers {
      return NotFound;
    }
    if sid !in db.students {
      return NotFound;
    }
    ghost var T0, S0 := db.teachers, db.students;
    var roster := RemoveStudent(db.teachers[tid].students, sid);
    db.teachers := SetRoster(db.teachers, tid, roster);
    db.students := SetRef(db.students, sid, None);
    status := Ok;
    if Consistent(T0, S0) {
      RemoveConsistentIff(T0, S0, tid, sid);
    }
  }

  // ---------------------------------------------------------------------------
  // Class templates

  /** The body of `POST /:id/classes`. `studentIds` is `None` when it is absent or not
      an array. */
  datatype ClassForm = ClassForm(
    course: Option<string>,
    startTime: Option<string>,
    endTime: Option<string>,
    startDate: Option<string>,
    studentIds: Option<seq<Id>>,
    duration: Option<int>,
    frequency: Option<string>)

  /** `createClass`: 400 when course, startTime, endTime or the teacher id is missing,
      500 when the frequency is outside the enum; otherwise one recurring template
      with `duration || 3`, `frequency || 'weekday'` and the given student ids. */
  method CreateClass(db: Database, tid: Id, form: ClassForm, newId: Id) returns (status: Status)
    requires newId !in db.classes
    modifies db`classes
    ensures status == BadRequest <==>
            !Truthy(form.course) || !Truthy(form.startTime) || !Truthy(form.endTime) || tid == ""
    ensures status == Created <==>
            Truthy(form.course) && Truthy(form.startTime) && Truthy(form.endTime) && tid != ""
            && OrElse(form.frequency, DefaultFrequency) in Frequencies
    ensures status == Created || status == BadRequest || status == ServerError
    ensures status != Created ==> db.classes == old(db.classes)
    ensures status == Created ==>
            && newId in db.classes && db.classes == old(db.classes)[newId := db.classes[newId]]
            && var c := db.classes[newId];
            && c.course == form.course.value && c.startTime == form.startTime.value
            && c.endTime == form.endTime.value && c.teacher == tid && c.startDate == form.startDate
            && c.isRecurring
            && c.duration == (if TruthyInt(form.duration) then form.duration.value else DefaultDuration)
            && c.frequency == OrElse(form.frequency, DefaultFrequency)
            && c.students == (if form.studentIds.Some? then form.studentIds.value else [])
            && c.recurringId == None && !c.live && c.meetLink == ""
            && ClassValidates(c)
  {
    if !Truthy(form.course) || !Truthy(form.startTime) || !Truthy(form.endTime) || tid == "" {
      return BadRequest;
    }
    var doc := NewClass(form.course.value, form.startTime.value, form.endTime.value, tid,
                        form.startDate,
                        if form.studentIds.Some? then form.studentIds.value else [],
                        Some(if TruthyInt(form.duration) then form.duration.value else DefaultDuration),
                        Some(OrElse(form.frequency, DefaultFrequency)),
                        Some(true));
    if !ClassValidates(doc) {
      return ServerError;
    }
    db.classes := db.classes[newId := doc];
    status := Created;
  }

  /** The filter `{ teacher: teacherId }` on classes. */
  function OwnedBy(tid: Id): ClassDoc -> bool {
    (c: ClassDoc) => c.teacher == tid
  }

  /** `.sort({ startTime: 1 })`: ascending string order of the start time. */
  predicate ByStartTime(p: (Id, ClassDoc), q: (Id, ClassDoc)) {
    LexLe(p.1.startTime, q.1.startTime)
  }

  lemma StartTimeOrderIsTotalPreorder()
    ensures TotalPreorder(ByStartTime)
  {
    forall a: (Id, ClassDoc), b: (Id, ClassDoc) ensures ByStartTime(a, b) || ByStartTime(b, a) {
      LexLeTotal(a.1.startTime, b.1.startTime);
    }
    forall a: (Id, ClassDoc), b: (Id, ClassDoc), c: (Id, ClassDoc) | ByStartTime(a, b) && ByStartTime(b, c)
      ensures ByStartTime(a, c)
    {
      LexLeTransitive(a.1.startTime, b.1.startTime, c.1.startTime);
    }
  }

  /** `getClassesForTeacher`: exactly the classes whose `teacher` is `tid`, each once,
      in ascending `startTime` order. */
  method GetClassesForTeacher(db: Database, tid: Id) returns (r: seq<(Id, ClassDoc)>)
    ensures forall p :: p in r <==> p.0 in db.classes && p.1 == db.classes[p.0] && p.1.teacher == tid
    ensures |r| == |KeysWhere(db.classes, OwnedBy(tid))|
    ensures forall i, j :: 0 <= i < j < |r| ==> LexLe(r[i].1.startTime, r[j].1.startTime)
  {
    var found := Select(db.classes, OwnedBy(tid));
    r := SortBy(found, ByStartTime);
    StartTimeOrderIsTotalPreorder();
    SortByIsSorted(found, ByStartTime);
    forall p ensures p in r <==> p in found {
      SortByMembers(found, ByStartTime, p);
    }
  }

  // ---------------------------------------------------------------------------
  // Projects and assignments

  /** `scoreStudentProject`: 400 unless a project id and a number are given, 404 for
      an unknown project, otherwise only that project's score changes. */
  method ScoreStudentProject(db: Database, projectId: Option<Id>, score: Option<int>) returns (status: Status)
    modifies db`projects
    ensures !Truthy(projectId) || score.None? ==> status == BadRequest
    ensures Truthy(projectId) && score.Some? && projectId.value !in old(db.projects) ==> status == NotFound
    ensures status == Ok <==> Truthy(projectId) && score.Some? && projectId.value in old(db.projects)
    ensures status != Ok ==> db.projects == old(db.projects)
    ensures status == Ok ==>
            db.projects == old(db.projects)[projectId.value := old(db.projects)[projectId.value].(score := score)]
  {
    if !Truthy(projectId) || score.None? {
      return BadRequest;
    }
    var pid := projectId.value;
    if pid !in db.projects {
      return NotFound;
    }
    db.projects := db.projects[pid := db.projects[pid].(score := score)];
    status := Ok;
  }

  /** The filter of `getAssignments`: course and batch always, the teacher only when
      one is given. */
  function AssignmentQuery(course: string, batchId: string, teacherId: Option<Id>): Assignment -> bool {
    (a: Assignment) => a.course == course && a.batchId == batchId && (Truthy(teacherId) ==> a.teacher == teacherId.value)
  }

  /** `.sort({ uploadDate: -1 })`: newest upload first. */
  predicate NewerUpload(p: (Id, Assignment), q: (Id, Assignment)) {
    p.1.uploadDate >= q.1.uploadDate
  }

  /** `getAssignments`: 400 unless course and batchId are given; otherwise the matching
      assignments, each once, newest upload first. */
  method GetAssignments(db: Database, course: Option<string>, teacherId: Option<Id>, batchId: Option<string>)
    returns (status: Status, r: seq<(Id, Assignment)>)
    ensures status == BadRequest <==> !Truthy(course) || !Truthy(batchId)
    ensures status == Ok || status == BadRequest
    ensures status == BadRequest ==> r == []
    ensures status == Ok ==>
            forall p :: p in r <==>
              (p.0 in db.assignments && p.1 == db.assignments[p.0]
               && p.1.course == course.value && p.1.batchId == batchId.value
               && (Truthy(teacherId) ==> p.1.teacher == teacherId.value))
    ensures status == Ok ==> |r| == |KeysWhere(db.assignments, AssignmentQuery(course.value, batchId.value, teacherId))|
    ensures forall i, j :: 0 <= i < j < |r| ==> r[i].1.uploadDate >= r[j].1.uploadDate
  {
    if !Truthy(course) || !Truthy(batchId) {
      return BadRequest, [];
    }
    var found := Select(db.assignments, AssignmentQuery(course.value, batchId.value, teacherId));
    r := SortBy(found, NewerUpload);
    SortByIsSorted(found, NewerUpload);
    forall p ensures p in r <==> p in found {
      SortByMembers(found, NewerUpload, p);
    }
    status := Ok;
  }

  // ---------------------------------------------------------------------------
  // Upload filters

  /** The assignment upload filter: images and PDF. */
  predicate AssignmentFileAccepted(mimetype: string) {
    StartsWith(mimetype, "image/") || mimetype == "application/pdf"
  }

  /** The student project upload filter: images, PDF, ZIP by mimetype, or any file
      whose original name ends in `.zip`. */
  predicate ProjectFileAccepted(mimetype: string, originalname: string) {
    || StartsWith(mimetype, "image/") || mimetype == "application/pdf"
    || mimetype == "application/zip" || mimetype == "application/x-zip-compressed"
    || EndsWith(originalname, ".zip")
  }

  /** The project filter accepts every file the assignment filter accepts, and more. */
  lemma ProjectFilterWidensAssignmentFilter(mimetype: string, originalname: string)
    ensures AssignmentFileAccepted(mimetype) ==> ProjectFileAccepted(mimetype, originalname)
    ensures !AssignmentFileAccepted("application/zip") && ProjectFileAccepted("application/zip", originalname)
  {
    var zip := "application/zip";
    assert zip[0] != "image/"[0];
    assert zip[..|"image/"|] != "image/";
  }

  /** A `.zip` name is enough for a project, whatever the declared mimetype. */
  lemma ZipNameIsAccepted(mimetype: string, originalname: string)
    requires EndsWith(originalname, ".zip")
    ensures ProjectFileAccepted(mimetype, originalname)
  {
  }

  /** Only the two listed types pass the assignment filter outside `image/`. */
  lemma AssignmentFilterRejects(mimetype: string)
    requires !StartsWith(mimetype, "image/") && mimetype != "application/pdf"
    ensures !AssignmentFileAccepted(mimetype)
  {
  }
}
