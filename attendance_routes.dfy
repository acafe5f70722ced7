/** The attendance routes: re-marking a class session (delete each listed student's
    marks for that class and date, then insert the new ones) and a student's marks. */
module AttendanceRoutes {
  import opened Common
  import opened Tables
  import opened Schemas
  import opened Db

  /** One element of `records`: `{ studentId, status, reason }`; a field may be absent. */
  datatype AttendanceMark = AttendanceMark(studentId: Option<Id>, status: Option<string>, reason: Option<string>)

  /** The documents one `deleteMany({ classId, studentId, date })` keeps. An absent
      `studentId` matches no stored mark, since every stored mark has one. */
  function Survives(classId: Id, date: string, studentId: Option<Id>): Attendance -> bool {
    (a: Attendance) => !(studentId.Some? && a.classId == classId && a.date == date && a.studentId == studentId.value)
  }

  /** What one `deleteMany` leaves. */
  function Purge(table: seq<Attendance>, classId: Id, date: string, studentId: Option<Id>): (r: seq<Attendance>)
    ensures studentId.None? ==> r == table
    ensures forall a :: a in r <==>
              a in table && !(studentId.Some? && a.classId == classId && a.date == date && a.studentId == studentId.value)
  {
    var keep := Survives(classId, date, studentId);
    if studentId.Some? then Filter(table, keep)
    else FilterKeepsAll(table, keep); Filter(table, keep)
  }

  /** The student a record names, if any. */
  ghost function IdOf(m: AttendanceMark): set<Id> {
    if m.studentId.Some? then {m.studentId.value} else {}
  }

  /** The students a request lists (records without a `studentId` list none). */
  ghost function Listed(records: seq<AttendanceMark>): set<Id> {
    set i | 0 <= i < |records| && records[i].studentId.Some? :: records[i].studentId.value
  }

  /** What the delete loop leaves after the given records, in order. */
  function PurgeAll(table: seq<Attendance>, classId: Id, date: string, records: seq<AttendanceMark>): seq<Attendance>
  {
    if records == [] then table
    else Purge(PurgeAll(table, classId, date, records[..|records| - 1]), classId, date, records[|records| - 1].studentId)
  }

  /** `records.map(...)`: one document per record, `reason || ''`. An absent
      `studentId` or `status` is shown as `""`; such a record never validates, so
      its document is never stored. */
  function Entries(classId: Id, date: string, records: seq<AttendanceMark>): (r: seq<Attendance>)
    ensures |r| == |records|
    ensures forall i :: 0 <= i < |r| ==>
              r[i] == Attendance(Given(records[i].studentId, ""), classId, date,
                                 if records[i].status.Some? then records[i].status.value else "",
                                 OrElse(records[i].reason, ""))
  {
    if records == [] then []
    else
      var m := records[|records| - 1];
      Entries(classId, date, records[..|records| - 1])
        + [Attendance(Given(m.studentId, ""), classId, date, if m.status.Some? then m.status.value else "", OrElse(m.reason, ""))]
  }

  /** The value of a field, or `d` when it is absent. */
  function Given<T>(o: Option<T>, d: T): T {
    if o.Some? then o.value else d
  }

  /** The schema validators `insertMany` runs: `studentId` is required, and `status`
      is required and in the enum. */
  predicate MarksValid(records: seq<AttendanceMark>) {
    forall i :: 0 <= i < |records| ==>
      records[i].studentId.Some? && records[i].status.Some? && records[i].status.value in AttendanceStatuses
  }

  /** The collection after a request whose records all validate. */
  function AfterMark(table: seq<Attendance>, classId: Id, date: string, records: seq<AttendanceMark>): seq<Attendance> {
    PurgeAll(table, classId, date, records) + Entries(classId, date, records)
  }

  /** `POST /api/attendance/mark`: 400 without classId, date or a `records` array;
      otherwise every listed student's marks for that class and date are deleted,
      one `deleteMany` per record, and then the new marks are inserted together,
      or none of them (500) when one fails validation. The deletions stay. */
  method MarkAttendance(db: Database, classId: Option<Id>, date: Option<string>, records: Option<seq<AttendanceMark>>)
    returns (status: Status)
    modifies db`attendance
    ensures status == Ok || status == BadRequest || status == ServerError
    ensures status == BadRequest <==> !Truthy(classId) || !Truthy(date) || records.None?
    ensures status == BadRequest ==> db.attendance == old(db.attendance)
    ensures status == Ok <==> Truthy(classId) && Truthy(date) && records.Some? && MarksValid(records.value)
    ensures status == ServerError ==>
            db.attendance == PurgeAll(old(db.attendance), classId.value, date.value, records.value)
    ensures status == Ok ==>
            db.attendance == AfterMark(old(db.attendance), classId.value, date.value, records.value)
  {
    if !Truthy(classId) || !Truthy(date) || records.None? {
      return BadRequest;
    }
    var c, d, rs := classId.value, date.value, records.value;
    for i := 0 to |rs|
      invariant db.attendance == PurgeAll(old(db.attendance), c, d, rs[..i])
    {
      assert rs[..i + 1][..i] == rs[..i];
      db.attendance := Purge(db.attendance, c, d, rs[i].studentId);
    }
    assert rs[..|rs|] == rs;
    if !MarksValid(rs) {
      return ServerError;
    }
    db.attendance := db.attendance + Entries(c, d, rs);
    status := Ok;
  }

  /** After the delete loop, a mark survives exactly when it is not for a listed
      student in that class on that date. */
  lemma {:induction false} PurgeAllMembers(table: seq<Attendance>, classId: Id, date: string, records: seq<AttendanceMark>, a: Attendance)
    ensures a in PurgeAll(table, classId, date, records) <==>
            a in table && !(a.classId == classId && a.date == date && a.studentId in Listed(records))
    decreases |records|
  {
    if records != [] {
      var init := records[..|records| - 1];
      PurgeAllMembers(table, classId, date, init, a);
      assert Listed(records) == Listed(init) + IdOf(records[|records| - 1]) by {
        forall i | 0 <= i < |init| ensures init[i] == records[i] { }
      }
    }
  }

  /** The delete loop removes nothing from a collection holding no mark it targets. */
  lemma {:induction false} PurgeAllUntouched(table: seq<Attendance>, classId: Id, date: string, records: seq<AttendanceMark>)
    requires forall a :: a in table ==> !(a.classId == classId && a.date == date && a.studentId in Listed(records))
    ensures PurgeAll(table, classId, date, records) == table
    decreases |records|
  {
    if records != [] {
      var init := records[..|records| - 1];
      assert Listed(init) <= Listed(records) by {
        forall i | 0 <= i < |init| ensures init[i] == records[i] { }
      }
      PurgeAllUntouched(table, classId, date, init);
      var last := records[|records| - 1].studentId;
      assert last.Some? ==> last.value in Listed(records);
      var keep := Survives(classId, date, last);
      forall a | a in table ensures keep(a) {
        assert last.None? || a.studentId != last.value || a.classId != classId || a.date != date;
      }
      FilterKeepsAll(table, keep);
    }
  }

  /** The delete loop distributes over a split of the collection. */
  lemma {:induction false} PurgeAllAppend(t1: seq<Attendance>, t2: seq<Attendance>, classId: Id, date: string, records: seq<AttendanceMark>)
    ensures PurgeAll(t1 + t2, classId, date, records) == PurgeAll(t1, classId, date, records) + PurgeAll(t2, classId, date, records)
    decreases |records|
  {
    if records != [] {
      var init := records[..|records| - 1];
      PurgeAllAppend(t1, t2, classId, date, init);
      FilterAppend(PurgeAll(t1, classId, date, init), PurgeAll(t2, classId, date, init),
                   Survives(classId, date, records[|records| - 1].studentId));
    }
  }

  /** Marks of other students, other classes or other dates survive a request. */
  lemma MarkKeepsOtherSessions(table: seq<Attendance>, classId: Id, date: string, records: seq<AttendanceMark>, a: Attendance)
    requires a in table
    requires a.classId != classId || a.date != date || a.studentId !in Listed(records)
    ensures a in AfterMark(table, classId, date, records)
  {
    PurgeAllMembers(table, classId, date, records, a);
  }

  /** With distinct student ids, a listed student's only mark for the session is the
      new one: earlier marks, `Absent` or `Present`, are gone. */
  lemma MarkReplacesSession(table: seq<Attendance>, classId: Id, date: string, records: seq<AttendanceMark>, i: int, a: Attendance)
    requires 0 <= i < |records|
    requires MarksValid(records)
    requires forall j, k :: 0 <= j < k < |records| ==> records[j].studentId != records[k].studentId
    requires a in AfterMark(table, classId, date, records)
    requires a.classId == classId && a.date == date && records[i].studentId == Some(a.studentId)
    ensures a == Entries(classId, date, records)[i]
  {
    PurgeAllMembers(table, classId, date, records, a);
    assert records[i].studentId.value in Listed(records);
    var e := Entries(classId, date, records);
    assert a in e;
    var j :| 0 <= j < |e| && e[j] == a;
    assert j == i;
  }

  /** The delete loop removes every mark the request itself inserts. */
  lemma PurgeAllEntries(classId: Id, date: string, records: seq<AttendanceMark>)
    requires MarksValid(records)
    ensures PurgeAll(Entries(classId, date, records), classId, date, records) == []
  {
    var e := Entries(classId, date, records);
    var r := PurgeAll(e, classId, date, records);
    forall a | a in e ensures a !in r {
      PurgeAllMembers(e, classId, date, records, a);
      var j :| 0 <= j < |e| && e[j] == a;
      assert a.studentId == records[j].studentId.value;
    }
    if r != [] {
      PurgeAllMembers(e, classId, date, records, r[0]);
    }
  }

  /** Sending the same request twice leaves what sending it once leaves. */
  lemma MarkIdempotent(table: seq<Attendance>, classId: Id, date: string, records: seq<AttendanceMark>)
    requires MarksValid(records)
    ensures AfterMark(AfterMark(table, classId, date, records), classId, date, records)
            == AfterMark(table, classId, date, records)
  {
    var p := PurgeAll(table, classId, date, records);
    var e := Entries(classId, date, records);
    PurgeAllAppend(p, e, classId, date, records);
    forall a | a in p ensures !(a.classId == classId && a.date == date && a.studentId in Listed(records)) {
      PurgeAllMembers(table, classId, date, records, a);
    }
    PurgeAllUntouched(p, classId, date, records);
    PurgeAllEntries(classId, date, records);
    assert PurgeAll(p + e, classId, date, records) == p;
  }

  /** A student listed twice gets two marks for the same session. */
  lemma RepeatedStudentIsMarkedTwice()
    ensures var rs := [AttendanceMark(Some("s1"), Some("Present"), None), AttendanceMark(Some("s1"), Some("Absent"), None)];
            var t := AfterMark([], "c1", "2024-01-01", rs);
            && MarksValid(rs) && |t| == 2
            && t[0].studentId == t[1].studentId == "s1" && t[0].status == "Present" && t[1].status == "Absent"
  {
    var rs := [AttendanceMark(Some("s1"), Some("Present"), None), AttendanceMark(Some("s1"), Some("Absent"), None)];
    assert rs[..1][..0] == [];
    assert PurgeAll([], "c1", "2024-01-01", rs[..0]) == [];
    assert PurgeAll([], "c1", "2024-01-01", rs[..1]) == [];
    assert PurgeAll([], "c1", "2024-01-01", rs) == [];
  }

  /** A record without `studentId` fails validation, so the request answers 500; its
      own `deleteMany` removes nothing, and the deletions made for the records before
      it stay. */
  lemma UnidentifiedRecordFails(table: seq<Attendance>, classId: Id, date: string, sid: Id)
    ensures var rs := [AttendanceMark(Some(sid), Some("Present"), None), AttendanceMark(None, Some("Present"), None)];
            && !MarksValid(rs)
            && PurgeAll(table, classId, date, rs) == Purge(table, classId, date, Some(sid))
  {
    var rs := [AttendanceMark(Some(sid), Some("Present"), None), AttendanceMark(None, Some("Present"), None)];
    assert !rs[1].studentId.Some?;
    assert rs[..1][..0] == [] && rs[..|rs| - 1] == rs[..1];
    var p := Purge(table, classId, date, Some(sid));
    assert PurgeAll(table, classId, date, rs[..1]) == p;
    assert PurgeAll(table, classId, date, rs) == Purge(p, classId, date, None);
  }

  /** `GET /api/attendance/student/:studentId`: that student's marks. */
  method GetStudentAttendance(db: Database, studentId: Id) returns (status: Status, r: seq<Attendance>)
    ensures status == BadRequest <==> studentId == ""
    ensures status == Ok || status == BadRequest
    ensures status == BadRequest ==> r == []
    ensures status == Ok ==> forall a :: a in r <==> a in db.attendance && a.studentId == studentId
    ensures status == Ok ==> r == Filter(db.attendance, (a: Attendance) => a.studentId == studentId)
  {
    if studentId == "" {
      return BadRequest, [];
    }
    r := Filter(db.attendance, (a: Attendance) => a.studentId == studentId);
    status := Ok;
  }
}
