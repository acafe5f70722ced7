/** The document store: one field per collection. Handlers read these fields and
    reassign them; a handler's `modifies` clause names the collections it writes. */
module Db {
  import opened Common
  import opened TeacherModel
  import opened StudentModel
  import opened ClassModel
  import opened Schemas

  class Database {
    var teachers: map<Id, Teacher>
    var students: map<Id, Student>
    var classes: map<Id, ClassDoc>
    var assignments: map<Id, Assignment>
    var projects: map<Id, StudentProject>
    var requests: map<Id, ExtensionRequest>
    var attendance: seq<Attendance>          // in insertion (natural) order
    var quizzes: seq<Quiz>
    var topics: seq<CoveredTopicStatus>
    var applications: seq<CareerApplication>

    constructor ()
      ensures teachers == map[] && students == map[] && classes == map[]
      ensures assignments == map[] && projects == map[] && requests == map[]
      ensures attendance == [] && quizzes == [] && topics == [] && applications == []
    {
      teachers, students, classes := map[], map[], map[];
      assignments, projects, requests := map[], map[], map[];
      attendance, quizzes, topics, applications := [], [], [], [];
    }
  }
}
