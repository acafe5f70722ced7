/** The quiz routes: creation with its request checks, and the latest quiz of a
    batch and course. */
module QuizRoutes {
  import opened Common
  import opened Schemas
  import opened Db

  /** The body of `POST /api/quizzes`. */
  datatype QuizForm = QuizForm(
    batchId: Option<string>, course: Option<string>, question: Option<string>,
    options: Option<seq<string>>, correctAnswer: Option<int>)

  const OptionCount: nat := 4

  /** The request checks: the three strings truthy, an `options` array of exactly
      four, and some `correctAnswer` (0 included; it is not checked against the
      options). */
  predicate QuizAccepted(f: QuizForm) {
    Truthy(f.batchId) && Truthy(f.course) && Truthy(f.question)
    && f.options.Some? && |f.options.value| == OptionCount && f.correctAnswer.Some?
  }

  /** The schema validators: each option is a required String, so '' fails. */
  predicate QuizValidates(f: QuizForm)
    requires QuizAccepted(f)
  {
    forall i :: 0 <= i < |f.options.value| ==> f.options.value[i] != ""
  }

  function NewQuiz(f: QuizForm, now: int): (q: Quiz)
    requires QuizAccepted(f)
    ensures |q.options| == OptionCount && q.createdAt == now
    ensures q.batchId == f.batchId.value && q.course == f.course.value && q.question == f.question.value
    ensures q.options == f.options.value && q.correctAnswer == f.correctAnswer.value
  {
    Quiz(f.batchId.value, f.course.value, f.question.value, f.options.value, f.correctAnswer.value, now)
  }

  /** `POST /api/quizzes`: 400 when the request checks fail, 500 when an option is
      empty, otherwise one quiz appended with `createdAt` set to `now`. */
  method CreateQuiz(db: Database, form: QuizForm, now: int) returns (status: Status)
    modifies db`quizzes
    ensures status == BadRequest <==> !QuizAccepted(form)
    ensures status == Ok <==> QuizAccepted(form) && QuizValidates(form)
    ensures status == Ok || status == BadRequest || status == ServerError
    ensures status != Ok ==> db.quizzes == old(db.quizzes)
    ensures status == Ok ==> db.quizzes == old(db.quizzes) + [NewQuiz(form, now)]
  {
    if !QuizAccepted(form) {
      return BadRequest;
    }
    if !QuizValidates(form) {
      return ServerError;
    }
    db.quizzes := db.quizzes + [NewQuiz(form, now)];
    status := Ok;
  }

  /** `Quiz.findOne({ batchId, course }).sort({ createdAt: -1 })`: a matching quiz
      with the greatest `createdAt`; among equal timestamps the latest inserted. */
  function Latest(qs: seq<Quiz>, batchId: string, course: string): (r: Option<Quiz>)
    ensures r.None? <==> forall q :: q in qs ==> !(q.batchId == batchId && q.course == course)
    ensures r.Some? ==> r.value in qs && r.value.batchId == batchId && r.value.course == course
    ensures r.Some? ==> forall q :: q in qs && q.batchId == batchId && q.course == course ==> q.createdAt <= r.value.createdAt
  {
    if qs == [] then None
    else
      var rest := Latest(qs[..|qs| - 1], batchId, course);
      var q := qs[|qs| - 1];
      assert forall x :: x in qs <==> x in qs[..|qs| - 1] || x == q;
      if q.batchId == batchId && q.course == course && (rest.None? || rest.value.createdAt <= q.createdAt)
      then Some(q)
      else rest
  }

  /** `GET /api/quizzes`: 400 unless batchId and course are given. */
  method GetQuiz(db: Database, batchId: Option<string>, course: Option<string>) returns (status: Status, r: Option<Quiz>)
    ensures status == BadRequest <==> !Truthy(batchId) || !Truthy(course)
    ensures status == Ok || status == BadRequest
    ensures status == BadRequest ==> r == None
    ensures status == Ok ==> r == Latest(db.quizzes, batchId.value, course.value)
  {
    if !Truthy(batchId) || !Truthy(course) {
      return BadRequest, None;
    }
    return Ok, Latest(db.quizzes, batchId.value, course.value);
  }

  /** A quiz created no earlier than every stored one is the one fetched next. */
  lemma NewestQuizIsServed(qs: seq<Quiz>, q: Quiz)
    requires forall x :: x in qs ==> x.createdAt <= q.createdAt
    ensures Latest(qs + [q], q.batchId, q.course) == Some(q)
  {
    assert (qs + [q])[..|qs + [q]| - 1] == qs;
  }

  /** Quizzes of other batches or courses do not change what is fetched. */
  lemma {:induction false} OtherQuizzesIgnored(qs: seq<Quiz>, q: Quiz, batchId: string, course: string)
    requires q.batchId != batchId || q.course != course
    ensures Latest(qs + [q], batchId, course) == Latest(qs, batchId, course)
  {
    assert (qs + [q])[..|qs + [q]| - 1] == qs;
  }
}
