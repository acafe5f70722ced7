/** The `/api/classes/:id` routes: listing, lookup, a partial update that runs no
    validators, and deletion. */
module ClassRoutes {
  import opened Common
  import opened Tables
  import opened ClassModel
  import opened Db

  /** The body of `PUT /api/classes/:id`; `None` is a key left undefined, which the
      update drops. */
  datatype ClassUpdate = ClassUpdate(
    course: Option<string>,
    startTime: Option<string>,
    endTime: Option<string>,
    startDate: Option<string>,
    studentIds: Option<seq<Id>>,
    duration: Option<int>,
    frequency: Option<string>,
    teacherId: Option<Id>)

  const NoChange := ClassUpdate(None, None, None, None, None, None, None, None)

  /** The value an update key leaves on its path: the given one, or the current one
      when the key is undefined. */
  function Given<T>(o: Option<T>, current: T): T {
    if o.Some? then o.value else current
  }

  /** `findByIdAndUpdate(id, update)`: every given key is written as is and every
      other path keeps its value; `isRecurring`, `recurringId`, `live` and
      `meetLink` are never written. */
  function Patch(c: ClassDoc, u: ClassUpdate): (r: ClassDoc)
    ensures r.isRecurring == c.isRecurring && r.recurringId == c.recurringId
    ensures r.live == c.live && r.meetLink == c.meetLink
    ensures u.course.Some? ==> r.course == u.course.value
    ensures u.course.None? ==> r.course == c.course
    ensures u.startTime.Some? ==> r.startTime == u.startTime.value
    ensures u.startTime.None? ==> r.startTime == c.startTime
    ensures u.endTime.Some? ==> r.endTime == u.endTime.value
    ensures u.endTime.None? ==> r.endTime == c.endTime
    ensures u.startDate.Some? ==> r.startDate == u.startDate
    ensures u.startDate.None? ==> r.startDate == c.startDate
    ensures u.studentIds.Some? ==> r.students == u.studentIds.value
    ensures u.studentIds.None? ==> r.students == c.students
    ensures u.duration.Some? ==> r.duration == u.duration.value
    ensures u.duration.None? ==> r.duration == c.duration
    ensures u.frequency.Some? ==> r.frequency == u.frequency.value
    ensures u.frequency.None? ==> r.frequency == c.frequency
    ensures u.teacherId.Some? ==> r.teacher == u.teacherId.value
    ensures u.teacherId.None? ==> r.teacher == c.teacher
  {
    ClassDoc(
      Given(u.course, c.course),
      Given(u.startTime, c.startTime),
      Given(u.endTime, c.endTime),
      Given(u.teacherId, c.teacher),
      if u.startDate.Some? then u.startDate else c.startDate,
      Given(u.studentIds, c.students),
      Given(u.duration, c.duration),
      Given(u.frequency, c.frequency),
      c.isRecurring, c.recurringId, c.live, c.meetLink)
  }

  /** An update with every key undefined writes nothing. */
  lemma PatchNothing(c: ClassDoc)
    ensures Patch(c, NoChange) == c
  {
  }

  /** Sending the same update twice is the same as sending it once. */
  lemma PatchIdempotent(c: ClassDoc, u: ClassUpdate)
    ensures Patch(Patch(c, u), u) == Patch(c, u)
  {
  }

  /** A given key overwrites, whatever the document held before. */
  lemma PatchOverwrites(c: ClassDoc, d: ClassDoc, u: ClassUpdate)
    requires u.course.Some? && u.startTime.Some? && u.endTime.Some? && u.startDate.Some?
    requires u.studentIds.Some? && u.duration.Some? && u.frequency.Some? && u.teacherId.Some?
    requires c.isRecurring == d.isRecurring && c.recurringId == d.recurringId
    requires c.live == d.live && c.meetLink == d.meetLink
    ensures Patch(c, u) == Patch(d, u)
  {
  }

  /** The update runs no validators: a valid template can be given a frequency
      outside the enum, or an empty course. */
  lemma PatchSkipsValidation(c: ClassDoc)
    requires ClassValidates(c)
    ensures !ClassValidates(Patch(c, NoChange.(frequency := Some("daily"))))
    ensures !ClassValidates(Patch(c, NoChange.(course := Some(""))))
  {
    assert "daily" != "weekday" && "daily" != "weekend";
  }

  /** `GET /api/classes`: every class once. */
  method GetAllClasses(db: Database) returns (r: seq<(Id, ClassDoc)>)
    ensures forall p :: p in r <==> p.0 in db.classes && p.1 == db.classes[p.0]
    ensures |r| == |db.classes|
  {
    r := Select(db.classes, (c: ClassDoc) => true);
    assert KeysWhere(db.classes, (c: ClassDoc) => true) == db.classes.Keys;
  }

  /** `GET /api/classes/:id`. */
  method GetClass(db: Database, id: Id) returns (status: Status, r: Option<ClassDoc>)
    ensures status == NotFound <==> id !in db.classes
    ensures status == Ok || status == NotFound
    ensures r.Some? <==> id in db.classes
    ensures r.Some? ==> r.value == db.classes[id]
  {
    if id !in db.classes {
      return NotFound, None;
    }
    return Ok, Some(db.classes[id]);
  }

  /** `PUT /api/classes/:id`: 404 when absent, otherwise only that class changes, by
      `Patch`. */
  method UpdateClass(db: Database, id: Id, u: ClassUpdate) returns (status: Status, r: Option<ClassDoc>)
    modifies db`classes
    ensures status == NotFound <==> id !in old(db.classes)
    ensures status == Ok || status == NotFound
    ensures status == NotFound ==> db.classes == old(db.classes) && r == None
    ensures status == Ok ==> db.classes == old(db.classes)[id := Patch(old(db.classes)[id], u)]
    ensures status == Ok ==> r == Some(db.classes[id])
  {
    if id !in db.classes {
      return NotFound, None;
    }
    var updated := Patch(db.classes[id], u);
    db.classes := db.classes[id := updated];
    return Ok, Some(updated);
  }

  /** `DELETE /api/classes/:id`: 404 when absent, otherwise only that class goes;
      sessions whose `recurringId` names it are left in place. */
  method DeleteClass(db: Database, id: Id) returns (status: Status)
    modifies db`classes
    ensures status == NotFound <==> id !in old(db.classes)
    ensures status == Ok || status == NotFound
    ensures status == NotFound ==> db.classes == old(db.classes)
    ensures status == Ok ==> db.classes == old(db.classes) - {id}
    ensures forall k :: k in old(db.classes) && k != id ==> k in db.classes && db.classes[k] == old(db.classes)[k]
  {
    if id !in db.classes {
      return NotFound;
    }
    db.classes := db.classes - {id};
    status := Ok;
  }
}
