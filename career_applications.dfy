/** Career applications: submission with an uploaded resume, whose stored path uses
    forward slashes only, and the newest-first listing. */
module CareerApplications {
  import opened Common
  import opened Sorting
  import opened Schemas
  import opened Db

  /** `path.replace(/\\/g, '/')`. */
  function NormaliseSeparators(p: string): (r: string)
    ensures |r| == |p|
    ensures forall i :: 0 <= i < |p| ==> r[i] == (if p[i] == '\\' then '/' else p[i])
  {
    if p == [] then []
    else [if p[0] == '\\' then '/' else p[0]] + NormaliseSeparators(p[1..])
  }

  /** No backslash survives, and normalising again changes nothing. */
  lemma NormalisedHasNoBackslash(p: string)
    ensures '\\' !in NormaliseSeparators(p)
    ensures NormaliseSeparators(NormaliseSeparators(p)) == NormaliseSeparators(p)
  {
  }

  /** A path already free of backslashes is stored as is. */
  lemma NormaliseKeepsForwardPaths(p: string)
    requires '\\' !in p
    ensures NormaliseSeparators(p) == p
  {
  }

  /** `req.file ? req.file.path.replace(...) : ''`. */
  function ResumePath(file: Option<string>): string {
    if file.Some? then NormaliseSeparators(file.value) else ""
  }

  /** `submitApplication`: 400 unless name, phone, email, address and a non-empty
      resume path are all given; otherwise one application, stamped with `now`. */
  method SubmitApplication(db: Database, name: Option<string>, phone: Option<string>, email: Option<string>,
                           address: Option<string>, file: Option<string>, now: int)
    returns (status: Status)
    modifies db`applications
    ensures status == Created <==>
            Truthy(name) && Truthy(phone) && Truthy(email) && Truthy(address) && ResumePath(file) != ""
    ensures status == Created || status == BadRequest
    ensures status == BadRequest ==> db.applications == old(db.applications)
    ensures status == Created ==>
            db.applications == old(db.applications)
                               + [CareerApplication(name.value, phone.value, email.value, address.value, ResumePath(file), now)]
    ensures status == Created ==> '\\' !in db.applications[|db.applications| - 1].resume
  {
    var resume := ResumePath(file);
    if !Truthy(name) || !Truthy(phone) || !Truthy(email) || !Truthy(address) || resume == "" {
      return BadRequest;
    }
    db.applications := db.applications + [CareerApplication(name.value, phone.value, email.value, address.value, resume, now)];
    NormalisedHasNoBackslash(file.value);
    status := Created;
  }

  /** `.sort({ createdAt: -1 })`. */
  predicate NewerApplication(a: CareerApplication, b: CareerApplication) {
    a.createdAt >= b.createdAt
  }

  /** `getAllApplications`: every application exactly once, newest first. */
  method ListApplications(db: Database) returns (r: seq<CareerApplication>)
    ensures multiset(r) == multiset(db.applications)
    ensures forall i, j :: 0 <= i < j < |r| ==> r[i].createdAt >= r[j].createdAt
  {
    r := SortBy(db.applications, NewerApplication);
    SortByIsSorted(db.applications, NewerApplication);
  }
}
