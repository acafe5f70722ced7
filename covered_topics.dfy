/** Covered topics: one `marked` object per batch and course, read with a default and
    written by an upsert. */
module CoveredTopics {
  import opened Common
  import opened Schemas
  import opened Db

  predicate SameKey(d: CoveredTopicStatus, batchId: string, course: string) {
    d.batchId == batchId && d.course == course
  }

  /** `findOne({ batchId, course })`: the position of the first match. */
  function FirstMatch(docs: seq<CoveredTopicStatus>, batchId: string, course: string): (r: Option<nat>)
    ensures r.None? <==> forall i :: 0 <= i < |docs| ==> !SameKey(docs[i], batchId, course)
    ensures r.Some? ==> r.value < |docs| && SameKey(docs[r.value], batchId, course)
    ensures r.Some? ==> forall i :: 0 <= i < r.value ==> !SameKey(docs[i], batchId, course)
  {
    if docs == [] then None
    else if SameKey(docs[0], batchId, course) then Some(0)
    else
      var rest := FirstMatch(docs[1..], batchId, course);
      if rest.None? then None else Some(rest.value + 1)
  }

  /** The first match is fixed by where the matches are. */
  lemma FirstMatchAt(docs: seq<CoveredTopicStatus>, batchId: string, course: string, i: nat)
    requires i < |docs| && SameKey(docs[i], batchId, course)
    requires forall k :: 0 <= k < i ==> !SameKey(docs[k], batchId, course)
    ensures FirstMatch(docs, batchId, course) == Some(i)
  {
    var r := FirstMatch(docs, batchId, course);
    assert r.Some?;
    assert !(r.value < i);
    assert !(i < r.value);
  }

  /** `doc ? doc.marked : {}`. */
  function MarkedFor(docs: seq<CoveredTopicStatus>, batchId: string, course: string): Marked {
    var i := FirstMatch(docs, batchId, course);
    if i.None? then map[] else docs[i.value].marked
  }

  /** `findOneAndUpdate({ batchId, course }, { marked }, { upsert: true })`: replace the
      first match's `marked`, or insert a new document when there is none. */
  function Upsert(docs: seq<CoveredTopicStatus>, batchId: string, course: string, marked: Marked): (r: seq<CoveredTopicStatus>)
    ensures FirstMatch(docs, batchId, course).Some? ==> |r| == |docs|
    ensures FirstMatch(docs, batchId, course).None? ==> r == docs + [CoveredTopicStatus(batchId, course, marked)]
  {
    var i := FirstMatch(docs, batchId, course);
    if i.None? then docs + [CoveredTopicStatus(batchId, course, marked)]
    else docs[i.value := docs[i.value].(marked := marked)]
  }

  /** At most one document per batch and course. */
  ghost predicate UniqueKeys(docs: seq<CoveredTopicStatus>) {
    forall i, j :: 0 <= i < j < |docs| ==> !(docs[i].batchId == docs[j].batchId && docs[i].course == docs[j].course)
  }

  /** `GET /api/covered-topics`: 400 unless batchId and course are given. */
  method GetCoveredTopics(db: Database, batchId: Option<string>, course: Option<string>) returns (status: Status, r: Marked)
    ensures status == BadRequest <==> !Truthy(batchId) || !Truthy(course)
    ensures status == Ok || status == BadRequest
    ensures status == BadRequest ==> r == map[]
    ensures status == Ok && (forall d :: d in db.topics ==> !SameKey(d, batchId.value, course.value)) ==> r == map[]
    ensures status == Ok ==> r == MarkedFor(db.topics, batchId.value, course.value)
  {
    if !Truthy(batchId) || !Truthy(course) {
      return BadRequest, map[];
    }
    return Ok, MarkedFor(db.topics, batchId.value, course.value);
  }

  /** `POST /api/covered-topics`: 400 unless batchId, course and marked are given
      (any object is truthy, `{}` included); otherwise the upsert. */
  method PostCoveredTopics(db: Database, batchId: Option<string>, course: Option<string>, marked: Option<Marked>)
    returns (status: Status, r: Marked)
    modifies db`topics
    ensures status == BadRequest <==> !Truthy(batchId) || !Truthy(course) || marked.None?
    ensures status == Ok || status == BadRequest
    ensures status == BadRequest ==> db.topics == old(db.topics)
    ensures status == Ok ==> db.topics == Upsert(old(db.topics), batchId.value, course.value, marked.value)
    ensures status == Ok ==> r == marked.value
  {
    if !Truthy(batchId) || !Truthy(course) || marked.None? {
      return BadRequest, map[];
    }
    db.topics := Upsert(db.topics, batchId.value, course.value, marked.value);
    return Ok, marked.value;
  }

  /** What was posted is what is read back. */
  lemma UpsertThenRead(docs: seq<CoveredTopicStatus>, batchId: string, course: string, marked: Marked)
    ensures MarkedFor(Upsert(docs, batchId, course, marked), batchId, course) == marked
  {
    var i := FirstMatch(docs, batchId, course);
    var r := Upsert(docs, batchId, course, marked);
    if i.None? {
      assert forall k :: 0 <= k < |docs| ==> r[k] == docs[k];
      FirstMatchAt(r, batchId, course, |docs|);
    } else {
      assert forall k :: 0 <= k < i.value ==> r[k] == docs[k];
      FirstMatchAt(r, batchId, course, i.value);
    }
  }

  /** Posting for one batch and course leaves what every other pair reads. */
  lemma UpsertKeepsOtherKeys(docs: seq<CoveredTopicStatus>, batchId: string, course: string, marked: Marked,
                             b: string, c: string)
    requires b != batchId || c != course
    ensures MarkedFor(Upsert(docs, batchId, course, marked), b, c) == MarkedFor(docs, b, c)
  {
    var r := Upsert(docs, batchId, course, marked);
    var i := FirstMatch(docs, batchId, course);
    assert forall k :: 0 <= k < |docs| ==> (SameKey(r[k], b, c) <==> SameKey(docs[k], b, c)) && (SameKey(docs[k], b, c) ==> r[k] == docs[k]);
    var j := FirstMatch(docs, b, c);
    if j.None? {
      assert FirstMatch(r, b, c).None?;
    } else {
      assert FirstMatch(r, b, c) == j;
    }
  }

  /** The upsert never creates a second document for a pair. */
  lemma UpsertKeepsUniqueKeys(docs: seq<CoveredTopicStatus>, batchId: string, course: string, marked: Marked)
    requires UniqueKeys(docs)
    ensures UniqueKeys(Upsert(docs, batchId, course, marked))
  {
    var i := FirstMatch(docs, batchId, course);
    var r := Upsert(docs, batchId, course, marked);
    if i.None? {
      assert forall k :: 0 <= k < |docs| ==> r[k] == docs[k];
    } else {
      assert forall k :: 0 <= k < |r| ==> r[k].batchId == docs[k].batchId && r[k].course == docs[k].course;
    }
  }

  /** Posting the same object twice is posting it once. */
  lemma UpsertIdempotent(docs: seq<CoveredTopicStatus>, batchId: string, course: string, marked: Marked)
    ensures Upsert(Upsert(docs, batchId, course, marked), batchId, course, marked) == Upsert(docs, batchId, course, marked)
  {
    var i := FirstMatch(docs, batchId, course);
    var r := Upsert(docs, batchId, course, marked);
    if i.None? {
      assert forall k :: 0 <= k < |docs| ==> r[k] == docs[k];
      FirstMatchAt(r, batchId, course, |docs|);
    } else {
      assert forall k :: 0 <= k < i.value ==> r[k] == docs[k];
      FirstMatchAt(r, batchId, course, i.value);
    }
  }
}
