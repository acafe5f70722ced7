# LMS backend: roster store and route handlers, modelled in Dafny

The backend keeps teachers, students, classes, attendance marks, quizzes, covered
topics, class extension requests, uploaded assignments and projects, and career
applications in MongoDB collections, written through Mongoose models by Express
handlers. Its one piece of real logic is the **teacher roster / student
back-reference**. A teacher document lists its students (`students`). A student
document names its teacher (`teacher`). The two live in separate collections and
are written one after the other, with no transaction.

This project models that store and its handlers.

- The store is `Db.Database`, a class with one field per collection. Collections
  addressed by id are maps. Collections whose natural order or duplicates matter
  (attendance, quizzes, covered topics, career applications) are sequences.
- Every handler is a method that checks its inputs first and then performs its
  writes in the source's order. Its contract gives each HTTP outcome with its
  exact condition and states the complete new state.
- The bidirectional invariant is `Integrity.Consistent`: `s.teacher == t` exactly
  when `s` is on `t`'s roster. For each mutating handler, lemmas prove whether it
  preserves the invariant. Where it does not, they prove exactly when it breaks.

Modules, one per source file or concern:

| module | models |
|---|---|
| `Common`, `Text`, `Tables`, `Sorting` | JavaScript truthiness and defaulting of falsy fields, the `trim` setter, `find` over a collection, `.sort(...)` |
| `TeacherModel`, `StudentModel`, `ClassModel`, `Schemas` | the schemas, their validators and defaults, `addStudent` / `removeStudent`, `findByTeacher` |
| `Db` | the collections |
| `Integrity` | the roster / back-reference invariant and what each write does to it |
| `TeacherController`, `StudentController` | the two controllers |
| `ClassRoutes`, `AttendanceRoutes`, `QuizRoutes`, `CoveredTopics`, `ExtensionRequests`, `CareerApplications` | the remaining routes and controllers |

Mongoose and MongoDB behaviour that the model fixes explicitly:

- A key left `undefined` in an update object is dropped, so it writes nothing.
- A filter condition whose value is `undefined` (`{ number: undefined }`) matches no
  stored document, since every stored document has that required path. So a
  duplicate check with an absent number or email only compares the field that was
  given (`DuplicateTeacher`, `DuplicateStudent`), and an attendance record without
  `studentId` deletes nothing (`AttendanceRoutes.Purge`).
- `trim: true` applies to stored values and to query filter values on those paths.
- `required` on a String path rejects `''`, after trimming. `required` on a Number
  path accepts `0`.
- A validation failure in `save()` (or in an update with `runValidators`) throws.
  The handler's catch answers 500, and nothing is written.
- `findByIdAndUpdate` without `runValidators` checks neither enums nor `required`.
- A key that is not a path of the schema is not stored. So the `assign` field sent
  to the student handlers is never stored.
- Password hashing replaces the password with an opaque value. The model stores the
  given password and checks only the `minlength` rule.
- New document ids, `Date.now()` and uploaded file paths are parameters. A fresh id
  satisfies `newId !in table`.

Behaviour of the code that the model keeps as written:

- `removeStudentFromTeacher` unsets the student's `teacher` whatever teacher it
  named. It does not unset it only when it named this teacher.
  `RemoveStudentFromTeacher` shows that this breaks the invariant exactly when the
  student belonged to a different teacher.
- The student's `teacher` is required only when a student is saved.
  `deleteTeacher` and `removeStudentFromTeacher` later `$unset` it, so stored
  students may have no teacher.
- Extension request status changes are not one-way. Approve and reject overwrite
  any status (`ExtensionRequests.LastDecisionWins`).
- Reassigning a student with `assignStudentToTeacher` leaves the old teacher's
  roster untouched (`Integrity.ReassignLeavesStaleEntry`,
  `Integrity.ReassignScenario`).

## Model

| member | source | states |
|---|---|---|
| Common.OrElse | controllers/teacherController.js:296-299 | defaulting a body field yields its value when it is truthy and the fallback otherwise |
| Text.Trim | models/Teacher.js:4-31 | the trimmed string starts and ends with non-whitespace, is a contiguous slice of the input, and only whitespace was cut from either end |
| Text.TrimEmptyIff | models/Student.js:4-8 | a string trims to `''` (and so fails `required`) exactly when it is all whitespace |
| Text.TrimIdempotent | models/Teacher.js:9-14 | trimming a stored (already trimmed) value changes nothing |
| Text.LexLeTotal | models/Class.js:5 | any two `startTime` strings are comparable in the string order |
| Text.LexLeTransitive | models/Class.js:5 | the string order used by `.sort({ startTime: 1 })` is transitive |
| Text.LexLeAntisymmetric | models/Class.js:5 | two strings that are each ordered before the other are equal |
| Sorting.SortBy | controllers/teacherController.js:563 | sorting returns a permutation of the query result |
| Sorting.InsertKeepsSorted | controllers/teacherController.js:563 | inserting into a sorted sequence under a total preorder keeps it sorted |
| Sorting.SortByIsSorted | controllers/teacherController.js:563 | the sorted result is ordered by the sort key for every pair of positions |
| Sorting.SortByMembers | controllers/teacherController.js:560-563 | sorting neither adds nor drops a document |
| Tables.Select | models/Student.js:80 | `find(filter)` on an id-keyed collection returns exactly the matching documents, each once |
| Tables.Filter | routes/attendanceRoutes.js:39 | `find(filter)` on a collection in natural order returns exactly the matching documents |
| TeacherModel.NewTeacher | models/Teacher.js:3-47 | a validated teacher stores each given string trimmed (so non-empty and unchanged by a second trim), the given password of at least 6 characters and an empty roster |
| TeacherModel.AddStudent | models/Teacher.js:73-79 | after `addStudent(id)` the id is on the roster; a member leaves the roster unchanged, a non-member is appended at the end with earlier entries unchanged |
| TeacherModel.RemoveStudent | models/Teacher.js:82-85 | after `removeStudent(id)` the id is nowhere on the roster and the result is the roster filtered in order |
| TeacherModel.WithoutMultiset | models/Teacher.js:83 | the filter removes every occurrence of the id and keeps every other id with its multiplicity |
| TeacherModel.WithoutMembers | models/Teacher.js:83 | an id is on the filtered roster exactly when it was on the roster and differs from the removed id |
| TeacherModel.WithoutNonMember | models/Teacher.js:83 | removing a non-member leaves the roster unchanged |
| TeacherModel.AddThenRemove | models/Teacher.js:73-85 | adding an absent id and then removing it restores the original roster |
| TeacherModel.AddedIdempotent | models/Teacher.js:74-78 | adding the same id twice is adding it once |
| TeacherModel.AddedNoDuplicates | models/Teacher.js:74-76 | adding keeps a duplicate-free roster duplicate-free |
| TeacherModel.WithoutNoDuplicates | models/Teacher.js:83 | removing keeps a duplicate-free roster duplicate-free |
| StudentModel.NewStudent | models/Student.js:3-48 | a validated student stores each given string trimmed (so non-empty and unchanged by a second trim), the given password of at least 6 characters and the given teacher |
| StudentModel.FindByTeacher | models/Student.js:79-81 | `findByTeacher(id)` returns exactly the students whose `teacher` is the id |
| ClassModel.NewClass | models/Class.js:3-16 | an omitted duration is 3, an omitted frequency `weekday`, `isRecurring` and `live` default to false, `meetLink` to `''`, `recurringId` is unset |
| Integrity.MirrorIff | models/Teacher.js:41-44 | in a consistent store, `s.teacher == t` exactly when `s` is on `t`'s roster |
| Integrity.RosterIsFindByTeacher | models/Student.js:79-81 | in a consistent store, `findByTeacher(t)` returns exactly the ids on `t`'s roster |
| Integrity.AssignConsistentIff | controllers/teacherController.js:418-422 | assign keeps the store consistent exactly when the student had no teacher or already had this one |
| Integrity.ReassignLeavesStaleEntry | controllers/teacherController.js:418-422 | reassigning a student leaves it on the previous teacher's roster, so the mirror breaks |
| Integrity.AssignIdempotent | controllers/teacherController.js:418-422 | assigning the same pair twice is assigning it once |
| Integrity.RemoveConsistentIff | controllers/teacherController.js:463-467 | remove keeps the store consistent exactly when the student had no teacher or had this one |
| Integrity.RemoveKeepsConsistent | controllers/teacherController.js:463-467 | removing a student from its own teacher keeps the store consistent |
| Integrity.CreateStudentKeepsConsistent | controllers/studentController.js:39-58 | saving a student that names an existing teacher and `$addToSet` on that roster keeps the store consistent |
| Integrity.DeleteStudentKeepsConsistent | controllers/studentController.js:228-236 | `$pull` from its teacher's roster then deletion keeps the store consistent |
| Integrity.DeleteTeacherKeepsConsistent | controllers/teacherController.js:343-349 | unsetting every reference to the teacher and then deleting it keeps the store consistent |
| Integrity.CreateTeacherKeepsConsistent | controllers/teacherController.js:181-190 | a new teacher with an empty roster keeps the store consistent |
| Integrity.UpdateTeacherKeepsConsistent | controllers/teacherController.js:295-311 | a teacher update that leaves the roster alone keeps the store consistent |
| Integrity.UpdateStudentConsistentIff | controllers/studentController.js:179-196 | a student update keeps the store consistent exactly when it leaves `teacher` as it was |
| Integrity.ReassignScenario | controllers/teacherController.js:418-422 | with T1 owning S1, assigning S1 to T2 gives S1.teacher = T2, both rosters listing S1, and an inconsistent store |
| StudentController.CreateStudent | controllers/studentController.js:12-58 | 400 without a teacher id; 400 on a duplicate number or email, checked before the teacher; 404 for an unknown teacher; 500 on a validation failure; all with no write; otherwise the student is stored, the id is added to the roster exactly once, and consistency is kept |
| StudentController.CreateStudentKeepsUnique | models/Student.js:9-14 | a student that passes the duplicate check keeps numbers and emails unique |
| StudentController.UpdatedStudent | controllers/studentController.js:179-190 | every truthy given field is stored trimmed (the password as given), every omitted field keeps its old value, the email never changes, and `teacher` is set only from a truthy `teacherId` |
| StudentController.UpdateStudent | controllers/studentController.js:149-196 | 404 for a missing student, 400 for a number another student holds, 404 for an unknown given teacher, 500 on a validator failure; otherwise only that student changes, no roster is touched, and consistency survives exactly when `teacher` is unchanged |
| StudentController.UpdateStudentKeepsUnique | models/Student.js:9-14 | an update that passes the number check keeps numbers and emails unique |
| StudentController.DeleteStudent | controllers/studentController.js:219-236 | 404 when absent; otherwise the id is pulled from the roster of the teacher it names, the student is deleted, and nothing else changes |
| StudentController.GetStudentsByTeacher | controllers/studentController.js:258 | returns exactly the students whose `teacher` is the id |
| TeacherController.CreateTeacher | controllers/teacherController.js:174-190 | 400 with no write when any teacher has the same number or email, 500 on a validation failure, otherwise the new teacher with an empty roster |
| TeacherController.CreateTeacherKeepsUnique | models/Teacher.js:9-25 | a teacher that passes the duplicate check keeps numbers and emails unique |
| TeacherController.UpdatedTeacher | controllers/teacherController.js:295-305 | every truthy given name, number, course and address is stored trimmed and a truthy password as given; omitted fields keep their old values; the email and the roster never change |
| TeacherController.UpdateTeacher | controllers/teacherController.js:276-311 | 404 when absent, 400 for a number another teacher holds, 500 on a validator failure; otherwise only that teacher's profile changes, email and roster kept |
| TeacherController.UpdateTeacherKeepsUnique | models/Teacher.js:9-25 | an update that passes the number check keeps numbers and emails unique |
| TeacherController.DeleteTeacher | controllers/teacherController.js:334-349 | 404 when absent; otherwise the teacher is gone, no student references it, every student still exists, and consistency is kept |
| TeacherController.AssignStudentToTeacher | controllers/teacherController.js:402-422 | 404 with no write when the teacher or the student is missing; otherwise the student names the teacher, is on its roster, every other roster is untouched, and consistency survives exactly when the student had no other teacher |
| TeacherController.RemoveStudentFromTeacher | controllers/teacherController.js:447-467 | 404 with no write when either is missing; otherwise the id is off that roster, the student's `teacher` is unset whatever it named, other rosters are untouched, and consistency survives exactly when the student had no other teacher |
| TeacherController.CreateClass | controllers/teacherController.js:525-542 | 400 exactly when course, startTime, endTime or the teacher id is missing; 500 for a frequency outside the enum; otherwise one recurring template whose duration is 3 when the given one is falsy (0 included), whose frequency is `weekday` when the given one is falsy, and whose students are the given ids or `[]` |
| TeacherController.StartTimeOrderIsTotalPreorder | controllers/teacherController.js:563 | ordering classes by `startTime` is a total preorder |
| TeacherController.GetClassesForTeacher | controllers/teacherController.js:560-563 | exactly the classes of that teacher, each once, in ascending `startTime` order |
| TeacherController.ScoreStudentProject | controllers/teacherController.js:150-160 | 400 without a project id or a number score, 404 for an unknown project, otherwise only that project's score changes |
| TeacherController.GetAssignments | controllers/teacherController.js:62-67 | 400 without course or batch; otherwise exactly the assignments of that course and batch, and of that teacher when one is given, newest upload first |
| TeacherController.ProjectFilterWidensAssignmentFilter | controllers/teacherController.js:24 | every file the assignment filter accepts, the project filter accepts; a ZIP only the project filter accepts |
| TeacherController.ZipNameIsAccepted | controllers/teacherController.js:92-98 | a name ending in `.zip` passes the project filter whatever its mimetype |
| TeacherController.AssignmentFilterRejects | controllers/teacherController.js:24 | outside `image/` only `application/pdf` passes the assignment filter |
| ClassRoutes.Patch | routes/classRoutes.js:37-47 | each of the eight update keys, when given, is stored as given and, when undefined, keeps the old value; isRecurring, recurringId, live and meetLink never change |
| ClassRoutes.PatchNothing | routes/classRoutes.js:37-47 | an update with every key undefined changes nothing |
| ClassRoutes.PatchIdempotent | routes/classRoutes.js:37-47 | sending the same update twice is sending it once |
| ClassRoutes.PatchOverwrites | routes/classRoutes.js:37-47 | with every key given, the result does not depend on the previous values of those keys |
| ClassRoutes.PatchSkipsValidation | routes/classRoutes.js:47 | the update can store a frequency outside the enum or an empty course |
| ClassRoutes.GetAllClasses | routes/classRoutes.js:10 | returns every class exactly once |
| ClassRoutes.GetClass | routes/classRoutes.js:22-28 | 404 exactly when the class is absent, otherwise that class |
| ClassRoutes.UpdateClass | routes/classRoutes.js:47-53 | 404 when absent; otherwise only that class changes, by the patch |
| ClassRoutes.DeleteClass | routes/classRoutes.js:62-66 | 404 when absent; otherwise only that class is removed and every other class is unchanged |
| AttendanceRoutes.Purge | routes/attendanceRoutes.js:14 | one `deleteMany` removes exactly the marks of that student, class and date, and nothing when the record has no `studentId` |
| AttendanceRoutes.Entries | routes/attendanceRoutes.js:17-23 | one new mark per record, with its status and its reason, or `''` when the reason is falsy |
| AttendanceRoutes.MarkAttendance | routes/attendanceRoutes.js:9-25 | 400 with no change without class, date or a records array; otherwise every listed student's marks for that session are deleted, then all new marks are inserted, or none (500, the deletions kept) when one fails validation (a missing `studentId` or `status`, or a status outside the enum); no other status is answered |
| AttendanceRoutes.PurgeAllMembers | routes/attendanceRoutes.js:13-15 | after the delete loop a mark survives exactly when it is not of a listed student in that class on that date |
| AttendanceRoutes.PurgeAllUntouched | routes/attendanceRoutes.js:13-15 | the delete loop leaves a collection without targeted marks unchanged |
| AttendanceRoutes.PurgeAllAppend | routes/attendanceRoutes.js:13-15 | the delete loop acts on each part of a collection independently |
| AttendanceRoutes.MarkKeepsOtherSessions | routes/attendanceRoutes.js:13-15 | marks of other classes, other dates or unlisted students survive |
| AttendanceRoutes.MarkReplacesSession | routes/attendanceRoutes.js:13-24 | for a request whose records validate, with distinct student ids, a listed student's only mark for the session is the new one |
| AttendanceRoutes.PurgeAllEntries | routes/attendanceRoutes.js:13-24 | for a request whose records validate, the delete loop removes every mark the same request inserts |
| AttendanceRoutes.MarkIdempotent | routes/attendanceRoutes.js:13-24 | a successful request sent twice leaves what sending it once leaves |
| AttendanceRoutes.RepeatedStudentIsMarkedTwice | routes/attendanceRoutes.js:13-24 | a student listed twice ends with two marks for the same session |
| AttendanceRoutes.UnidentifiedRecordFails | routes/attendanceRoutes.js:13-24 | a record without `studentId` makes the request fail validation, deletes nothing itself, and the deletion for the record before it stays |
| AttendanceRoutes.GetStudentAttendance | routes/attendanceRoutes.js:36-40 | exactly the marks of that student, in collection order and with their multiplicity (the in-order filter) |
| ExtensionRequests.CreateRequest | controllers/classExtensionRequestController.js:7-12 | 500 with no write when a required field is missing, otherwise a new request with status pending |
| ExtensionRequests.WithStatus | controllers/classExtensionRequestController.js:29-33 | only the status of that request changes; an unknown id changes nothing |
| ExtensionRequests.Updated | controllers/classExtensionRequestController.js:29-34 | the reply data is the request, or null for an unknown id |
| ExtensionRequests.ApproveRequest | controllers/classExtensionRequestController.js:29-34 | 200 whatever the id and whatever the current status; only that request's status becomes approved |
| ExtensionRequests.RejectRequest | controllers/classExtensionRequestController.js:42-47 | 200 whatever the id and whatever the current status; only that request's status becomes rejected |
| ExtensionRequests.WithStatusIdempotent | controllers/classExtensionRequestController.js:29-46 | approving or rejecting twice is doing it once |
| ExtensionRequests.LastDecisionWins | controllers/classExtensionRequestController.js:29-46 | the last decision wins; a rejected request can be approved |
| ExtensionRequests.DecisionIsLocal | controllers/classExtensionRequestController.js:29-46 | deciding one request leaves every other request as it was |
| QuizRoutes.NewQuiz | routes/quizRoutes.js:12 | the stored quiz has exactly four options and the given fields, stamped with the creation time |
| QuizRoutes.CreateQuiz | routes/quizRoutes.js:9-14 | 400 with no write unless batch, course and question are truthy, options are four and correctAnswer is defined (0 included, no range check); 500 for an empty option; otherwise the quiz is appended |
| QuizRoutes.Latest | routes/quizRoutes.js:28 | null exactly when no quiz matches, otherwise a matching quiz with the greatest createdAt |
| QuizRoutes.GetQuiz | routes/quizRoutes.js:24-29 | 400 without batch or course, otherwise the latest matching quiz |
| QuizRoutes.NewestQuizIsServed | routes/quizRoutes.js:13-28 | a quiz created no earlier than all stored ones is the one fetched next |
| QuizRoutes.OtherQuizzesIgnored | routes/quizRoutes.js:28 | quizzes of other batches or courses do not change what is fetched |
| CoveredTopics.FirstMatch | routes/coveredTopicsRoutes.js:12 | `findOne` finds the first document of that batch and course, or none exactly when there is none |
| CoveredTopics.FirstMatchAt | routes/coveredTopicsRoutes.js:12 | the first match is the earliest matching position |
| CoveredTopics.Upsert | routes/coveredTopicsRoutes.js:27-31 | a missing key appends one document; an existing key keeps the collection's length |
| CoveredTopics.GetCoveredTopics | routes/coveredTopicsRoutes.js:9-13 | 400 without batch or course; otherwise the stored `marked`, or `{}` when no document exists |
| CoveredTopics.PostCoveredTopics | routes/coveredTopicsRoutes.js:24-32 | 400 with no change without batch, course or marked; otherwise the upsert, answering the posted object |
| CoveredTopics.UpsertThenRead | routes/coveredTopicsRoutes.js:12-13 | a post followed by a get of the same key returns what was posted |
| CoveredTopics.UpsertKeepsOtherKeys | routes/coveredTopicsRoutes.js:27-31 | a post leaves what every other key reads |
| CoveredTopics.UpsertKeepsUniqueKeys | routes/coveredTopicsRoutes.js:27-31 | repeated posts never create a second document for a key |
| CoveredTopics.UpsertIdempotent | routes/coveredTopicsRoutes.js:27-31 | posting the same object twice is posting it once |
| CareerApplications.NormaliseSeparators | controllers/careerApplicationController.js:8 | the normalised path has the same length, `/` where the upload had `\`, and every other character unchanged |
| CareerApplications.NormalisedHasNoBackslash | controllers/careerApplicationController.js:8 | the stored path has no backslash, and normalising again changes nothing |
| CareerApplications.NormaliseKeepsForwardPaths | controllers/careerApplicationController.js:8 | a path without backslashes is stored as is |
| CareerApplications.SubmitApplication | controllers/careerApplicationController.js:8-20 | 400 with no write unless name, phone, email, address and a resume are given; otherwise exactly one application with those fields and a backslash-free resume path |
| CareerApplications.ListApplications | controllers/careerApplicationController.js:29 | every application exactly once, newest createdAt first |

## Left out

- Upload storage is not modelled. That covers multer disk storage, directory creation, and file names built from the clock and a random number. `uploadAssignment` and `uploadStudentProject` are plain inserts behind the file filters. Only the two filter predicates are modelled.
- `getStudentProjects`, `getAllRequests`, `getAllTeachers`, `getTeacherById`, `getTeacherWithStudents`, `getAllStudents` and `getStudentById` are read-only lookups with `.populate`. They are not modelled. `GetClassesForTeacher`, `GetAssignments` and `FindByTeacher` show the query shape they share.
- `.populate(...)` is not modelled. A reply carries the stored ids in place of the joined documents.
- Password hashing (the bcrypt pre-save hooks), `comparePassword`, the login handlers, JWT and the auth routes are not modelled. A stored password is the given one, and the plain-password copy is not modelled.
- HTTP wiring, CORS and static file serving are not modelled. Reply bodies become a status plus, where the handler returns data, that data.
- Interleavings of concurrent requests are not modelled. Each handler is one sequential method, and the intermediate state between its writes is not exposed.
- `new Date(date)` is not modelled. Attendance dates are opaque keys compared for equality, so two spellings of the same instant count as different dates.
- Malformed ids are not modelled. An id that is not an ObjectId makes Mongoose throw a cast error (500), while the model treats every string id as a lookup that may miss.
- JSON values of the wrong type are not modelled: `null`, a number where a string is expected, or `records` or `options` that are strings. Fields are either absent or of the schema's type; an absent field, including a record's `studentId`, is modelled.
- Floating point numbers and `NaN` are not modelled. Durations, scores and counts are integers.
- The MongoDB unique indexes are not modelled as a separate check. The handlers' own duplicate checks already keep numbers and emails unique (`CreateTeacherKeepsUnique`, `UpdateTeacherKeepsUnique`, `CreateStudentKeepsUnique`, `UpdateStudentKeepsUnique`), so the index never fires.
- Document timestamps (`createdAt` and `updatedAt` from `timestamps: true`) are not modelled. Only the explicit `createdAt` and `uploadDate` defaults appear, as parameters.
- Text.Trim: whitespace is the ECMAScript WhiteSpace and LineTerminator set. Strings are sequences of code points, not UTF-16 code units.
- TeacherModel.PasswordAccepted: the `minlength: 6` check counts code points, while Mongoose counts UTF-16 code units. A password of five characters, one of them outside the Basic Multilingual Plane, passes in the source and is rejected by the model. The same holds for `StudentUpdateValidates` and `TeacherUpdateValidates`.
- QuizRoutes.Latest: when several matching quizzes share the greatest `createdAt`, the database may return any of them. The model returns the latest inserted one.
- AttendanceRoutes.MarkReplacesSession: states that every mark of a listed student for the session equals the new one. It does not count that mark, but `Entries` holds one mark per record.
- AttendanceRoutes.MarkAttendance: `insertMany` is taken to validate every record before inserting any (ordered insert). A partial insert after a failure is not modelled.
- QuizRoutes.CreateQuiz: the `required` validator on each option string is taken to run on every array element.
