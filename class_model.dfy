/** The Class schema: one document is either a single session or a recurring
    template (`isRecurring`), with the defaults the schema declares. */
module ClassModel {
  import opened Common

  datatype ClassDoc = ClassDoc(
    course: string,
    startTime: string,   // a String path: ordering by it is lexicographic
    endTime: string,
    teacher: Id,
    startDate: Option<string>,
    students: seq<Id>,
    duration: int,       // months the recurrence runs
    frequency: string,
    isRecurring: bool,
    recurringId: Option<Id>,
    live: bool,
    meetLink: string)

  const DefaultDuration: int := 3
  const DefaultFrequency: string := "weekday"

  /** The `enum` of the `frequency` path. */
  const Frequencies: set<string> := {"weekday", "weekend"}

  /** The validators `save()` runs: `required` on course, startTime, endTime and
      teacher (a String path rejects ''), and the `frequency` enum. */
  predicate ClassValidates(c: ClassDoc) {
    c.course != "" && c.startTime != "" && c.endTime != "" && c.teacher != ""
    && c.frequency in Frequencies
  }

  /** `new Class({...})`: a path left undefined takes its schema default. */
  function NewClass(course: string, startTime: string, endTime: string, teacher: Id,
                    startDate: Option<string>, students: seq<Id>, duration: Option<int>,
                    frequency: Option<string>, isRecurring: Option<bool>): (c: ClassDoc)
    ensures c.course == course && c.startTime == startTime && c.endTime == endTime
    ensures c.teacher == teacher && c.startDate == startDate && c.students == students
    ensures c.duration == (if duration.Some? then duration.value else DefaultDuration)
    ensures c.frequency == (if frequency.Some? then frequency.value else DefaultFrequency)
    ensures c.isRecurring == (isRecurring.Some? && isRecurring.value)
    ensures c.recurringId == None && !c.live && c.meetLink == ""
  {
    ClassDoc(course, startTime, endTime, teacher, startDate, students,
             if duration.Some? then duration.value else DefaultDuration,
             if frequency.Some? then frequency.value else DefaultFrequency,
             isRecurring.Some? && isRecurring.value,
             None, false, "")
  }
}
