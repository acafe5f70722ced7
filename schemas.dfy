/** The remaining documents: plain field declarations with their enums and defaults. */
module Schemas {
  import opened Common

  /** One attendance mark. `date` is the key the handler derives from the request
      (`new Date(date)`), compared as an opaque value. */
  datatype Attendance = Attendance(studentId: Id, classId: Id, date: string, status: string, reason: string)

  /** The `enum` of the attendance `status` path. */
  const AttendanceStatuses: set<string> := {"Present", "Absent"}

  datatype Assignment = Assignment(
    course: string, teacher: Id, batchId: string,
    filename: string, originalname: string, mimetype: string, size: int,
    uploadDate: int)

  datatype StudentProject = StudentProject(
    course: string, teacher: Id, student: Id,
    filename: string, originalname: string, mimetype: string, size: int,
    uploadDate: int, score: Option<int>)

  datatype RequestStatus = Pending | Approved | Rejected

  datatype ExtensionRequest = ExtensionRequest(
    batchId: Id, teacherId: Id, reason: string, extraClasses: int,
    status: RequestStatus, createdAt: int)

  datatype Quiz = Quiz(
    batchId: string, course: string, question: string, options: seq<string>,
    correctAnswer: int, createdAt: int)

  /** The `marked` object of covered topics, e.g. `{ 0: true, 1: true }`. */
  type Marked = map<string, bool>

  datatype CoveredTopicStatus = CoveredTopicStatus(batchId: string, course: string, marked: Marked)

  datatype CareerApplication = CareerApplication(
    name: string, phone: string, email: string, address: string, resume: string,
    createdAt: int)
}
