/** Class extension requests: creation with the schema's validators, and the two
    status updates, which run none. */
module ExtensionRequests {
  import opened Common
  import opened Schemas
  import opened Db

  /** The body of `createRequest`. */
  datatype RequestForm = RequestForm(batchId: Option<Id>, teacherId: Option<Id>, reason: Option<string>, extraClasses: Option<int>)

  /** The validators `save()` runs: every path is required, and a Number passes the
      `required` check even when it is 0. */
  predicate RequestValidates(f: RequestForm) {
    Truthy(f.batchId) && Truthy(f.teacherId) && Truthy(f.reason) && f.extraClasses.Some?
  }

  /** `createRequest`: 500 with no write when a required path is missing, otherwise a
      new `pending` request stamped with `now`. */
  method CreateRequest(db: Database, form: RequestForm, newId: Id, now: int) returns (status: Status)
    requires newId !in db.requests
    modifies db`requests
    ensures status == Created <==> RequestValidates(form)
    ensures status == Created || status == ServerError
    ensures status == ServerError ==> db.requests == old(db.requests)
    ensures status == Created ==>
            db.requests == old(db.requests)[newId := ExtensionRequest(form.batchId.value, form.teacherId.value,
                                                                    form.reason.value, form.extraClasses.value,
                                                                    Pending, now)]
  {
    if !RequestValidates(form) {
      return ServerError;
    }
    db.requests := db.requests[newId := ExtensionRequest(form.batchId.value, form.teacherId.value,
                                                         form.reason.value, form.extraClasses.value, Pending, now)];
    status := Created;
  }

  /** `findByIdAndUpdate(id, { status })`: an unknown id changes nothing. */
  function WithStatus(R: map<Id, ExtensionRequest>, id: Id, s: RequestStatus): (r: map<Id, ExtensionRequest>)
    ensures r.Keys == R.Keys
    ensures id in R ==> r[id] == R[id].(status := s)
    ensures forall k :: k in R && k != id ==> r[k] == R[k]
  {
    if id in R then R[id := R[id].(status := s)] else R
  }

  /** The handler's reply data: the updated request, or `null` for an unknown id. */
  function Updated(R: map<Id, ExtensionRequest>, id: Id): (r: Option<ExtensionRequest>)
    ensures r.Some? <==> id in R
    ensures r.Some? ==> r.value == R[id]
  {
    if id in R then Some(R[id]) else None
  }

  /** `approveRequest`: 200 whatever the id; only that request's status changes. */
  method ApproveRequest(db: Database, id: Id) returns (status: Status, r: Option<ExtensionRequest>)
    modifies db`requests
    ensures status == Ok
    ensures db.requests == WithStatus(old(db.requests), id, Approved)
    ensures r == Updated(db.requests, id)
  {
    db.requests := WithStatus(db.requests, id, Approved);
    return Ok, Updated(db.requests, id);
  }

  /** `rejectRequest`: 200 whatever the id; only that request's status changes. */
  method RejectRequest(db: Database, id: Id) returns (status: Status, r: Option<ExtensionRequest>)
    modifies db`requests
    ensures status == Ok
    ensures db.requests == WithStatus(old(db.requests), id, Rejected)
    ensures r == Updated(db.requests, id)
  {
    db.requests := WithStatus(db.requests, id, Rejected);
    return Ok, Updated(db.requests, id);
  }

  /** Approving (or rejecting) twice is approving once. */
  lemma WithStatusIdempotent(R: map<Id, ExtensionRequest>, id: Id, s: RequestStatus)
    ensures WithStatus(WithStatus(R, id, s), id, s) == WithStatus(R, id, s)
  {
  }

  /** The last decision wins: nothing makes a decision final, so a rejected request
      can still be approved and the other way round. */
  lemma LastDecisionWins(R: map<Id, ExtensionRequest>, id: Id, s1: RequestStatus, s2: RequestStatus)
    ensures WithStatus(WithStatus(R, id, s1), id, s2) == WithStatus(R, id, s2)
    ensures id in R ==> WithStatus(WithStatus(R, id, Rejected), id, Approved)[id].status == Approved
  {
    if id in R {
      assert WithStatus(WithStatus(R, id, s1), id, s2) == R[id := R[id].(status := s2)];
    }
  }

  /** Deciding one request leaves every other request as it was. */
  lemma DecisionIsLocal(R: map<Id, ExtensionRequest>, id: Id, other: Id, s: RequestStatus)
    requires other in R && other != id
    ensures WithStatus(R, id, s)[other] == R[other]
  {
  }
}
