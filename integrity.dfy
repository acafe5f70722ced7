/** The teacher roster / student back-reference relation and what each mutating
    handler does to it. The two sides live in separate collections and are written
    one after the other with no transaction; the handlers keep them mirrored in some
    cases and visibly break the mirror in others, and the lemmas here say which. */
module Integrity {
  import opened Common
  import opened Tables
  import opened TeacherModel
  import opened StudentModel

  /** The bidirectional invariant: a student's `teacher` names an existing teacher
      whose roster lists the student, and every roster entry is an existing student
      whose `teacher` names that roster's owner. */
  ghost predicate Consistent(T: map<Id, Teacher>, S: map<Id, Student>) {
    && (forall sid :: sid in S && S[sid].teacher.Some? ==>
          S[sid].teacher.value in T && sid in T[S[sid].teacher.value].students)
    && (forall tid, sid :: tid in T && sid in T[tid].students ==>
          sid in S && S[sid].teacher == Some(tid))
  }

  /** `teachers` with the roster of `tid` replaced. */
  function SetRoster(T: map<Id, Teacher>, tid: Id, roster: seq<Id>): map<Id, Teacher>
    requires tid in T
  {
    T[tid := T[tid].(students := roster)]
  }

  /** `students` with the back-reference of `sid` replaced (`None` is `$unset`). */
  function SetRef(S: map<Id, Student>, sid: Id, ref: Option<Id>): map<Id, Student>
    requires sid in S
  {
    S[sid := S[sid].(teacher := ref)]
  }

  /** `$pull` of `sid` from the roster of the teacher `ref` names; a reference to a
      missing teacher matches no document and changes nothing. */
  function PulledFrom(T: map<Id, Teacher>, ref: Option<Id>, sid: Id): map<Id, Teacher> {
    if ref.Some? && ref.value in T then SetRoster(T, ref.value, Without(T[ref.value].students, sid)) else T
  }

  /** `Student.updateMany({ teacher: tid }, { $unset: { teacher: "" } })`. */
  function UnsetRefsTo(S: map<Id, Student>, tid: Id): map<Id, Student> {
    map sid | sid in S :: if S[sid].teacher == Some(tid) then S[sid].(teacher := None) else S[sid]
  }

  /** For an existing teacher and student of a consistent store:
      `s.teacher == t` exactly when `s` is on `t`'s roster. */
  lemma MirrorIff(T: map<Id, Teacher>, S: map<Id, Student>, tid: Id, sid: Id)
    requires Consistent(T, S) && tid in T && sid in S
    ensures S[sid].teacher == Some(tid) <==> sid in T[tid].students
  {
  }

  /** Under the invariant, `findByTeacher(tid)` and the roster of `tid` name the same
      students. */
  lemma RosterIsFindByTeacher(T: map<Id, Teacher>, S: map<Id, Student>, tid: Id)
    requires Consistent(T, S) && tid in T
    ensures KeysWhere(S, TaughtBy(tid)) == set x | x in T[tid].students
  {
    forall x ensures x in KeysWhere(S, TaughtBy(tid)) <==> x in T[tid].students {
      if x in S {
        assert TaughtBy(tid)(S[x]) == (S[x].teacher == Some(tid));
      }
    }
  }

  /** `assignStudentToTeacher` keeps a consistent store consistent exactly when the
      student had no teacher or already had this one. Reassigning a student leaves
      the previous teacher's roster entry behind. */
  lemma AssignConsistentIff(T: map<Id, Teacher>, S: map<Id, Student>, tid: Id, sid: Id)
    requires Consistent(T, S) && tid in T && sid in S
    ensures Consistent(SetRoster(T, tid, Added(T[tid].students, sid)), SetRef(S, sid, Some(tid)))
        <==> S[sid].teacher == None || S[sid].teacher == Some(tid)
  {
    var T' := SetRoster(T, tid, Added(T[tid].students, sid));
    var S' := SetRef(S, sid, Some(tid));
    if S[sid].teacher.Some? && S[sid].teacher != Some(tid) {
      var t0 := S[sid].teacher.value;
      assert t0 in T' && sid in T'[t0].students && S'[sid].teacher != Some(t0);
    } else {
      forall t, x | t in T' && x in T'[t].students ensures x in S' && S'[x].teacher == Some(t) {
        if t == tid && x == sid {
        } else if t == tid {
          assert x in T[tid].students;
        } else {
          assert x in T[t].students;
        }
      }
    }
  }

  /** The old owner still lists a reassigned student, which now points elsewhere. */
  lemma ReassignLeavesStaleEntry(T: map<Id, Teacher>, S: map<Id, Student>, tid: Id, sid: Id)
    requires Consistent(T, S) && tid in T && sid in S
    requires S[sid].teacher.Some? && S[sid].teacher.value != tid
    ensures var T' := SetRoster(T, tid, Added(T[tid].students, sid));
            var t0 := S[sid].teacher.value;
            t0 in T' && sid in T'[t0].students && sid in T'[tid].students
            && SetRef(S, sid, Some(tid))[sid].teacher == Some(tid)
  {
  }

  /** Assigning twice is assigning once. */
  lemma AssignIdempotent(T: map<Id, Teacher>, S: map<Id, Student>, tid: Id, sid: Id)
    requires tid in T && sid in S
    ensures var T' := SetRoster(T, tid, Added(T[tid].students, sid));
            var S' := SetRef(S, sid, Some(tid));
            SetRoster(T', tid, Added(T'[tid].students, sid)) == T'
            && SetRef(S', sid, Some(tid)) == S'
  {
    AddedIdempotent(T[tid].students, sid);
  }

  /** `removeStudentFromTeacher` unsets the back-reference whoever it named, so it
      keeps a consistent store consistent exactly when the student had no teacher or
      had this one. */
  lemma RemoveConsistentIff(T: map<Id, Teacher>, S: map<Id, Student>, tid: Id, sid: Id)
    requires Consistent(T, S) && tid in T && sid in S
    ensures Consistent(SetRoster(T, tid, Without(T[tid].students, sid)), SetRef(S, sid, None))
        <==> S[sid].teacher == None || S[sid].teacher == Some(tid)
  {
    if S[sid].teacher.Some? && S[sid].teacher != Some(tid) {
      var T' := SetRoster(T, tid, Without(T[tid].students, sid));
      var t0 := S[sid].teacher.value;
      assert t0 in T' && sid in T'[t0].students && SetRef(S, sid, None)[sid].teacher != Some(t0);
    } else {
      RemoveKeepsConsistent(T, S, tid, sid);
    }
  }

  lemma RemoveKeepsConsistent(T: map<Id, Teacher>, S: map<Id, Student>, tid: Id, sid: Id)
    requires Consistent(T, S) && tid in T && sid in S
    requires S[sid].teacher == None || S[sid].teacher == Some(tid)
    ensures Consistent(SetRoster(T, tid, Without(T[tid].students, sid)), SetRef(S, sid, None))
  {
    var T' := SetRoster(T, tid, Without(T[tid].students, sid));
    var S' := SetRef(S, sid, None);
    forall t, x | t in T' && x in T'[t].students ensures x in S' && S'[x].teacher == Some(t) {
      if t == tid {
        WithoutMembers(T[tid].students, sid, x);
      } else {
        assert x in T[t].students;
      }
    }
    forall x | x in S' && S'[x].teacher.Some? ensures S'[x].teacher.value in T' && x in T'[S'[x].teacher.value].students {
      if S[x].teacher == Some(tid) {
        WithoutMembers(T[tid].students, sid, x);
      }
    }
  }

  /** `createStudent` with an existing teacher and a fresh id keeps the invariant. */
  lemma CreateStudentKeepsConsistent(T: map<Id, Teacher>, S: map<Id, Student>, tid: Id, sid: Id, s: Student)
    requires Consistent(T, S) && tid in T && sid !in S && s.teacher == Some(tid)
    ensures Consistent(SetRoster(T, tid, Added(T[tid].students, sid)), S[sid := s])
  {
    var T' := SetRoster(T, tid, Added(T[tid].students, sid));
    var S' := S[sid := s];
    forall t, x | t in T' && x in T'[t].students ensures x in S' && S'[x].teacher == Some(t) {
      if t == tid && x != sid {
        assert x in T[tid].students;
      } else if t != tid {
        assert x in T[t].students;
      }
    }
  }

  /** `deleteStudent` pulls the id from its teacher's roster before deleting the
      record, which keeps the invariant. */
  lemma DeleteStudentKeepsConsistent(T: map<Id, Teacher>, S: map<Id, Student>, sid: Id)
    requires Consistent(T, S) && sid in S
    ensures Consistent(PulledFrom(T, S[sid].teacher, sid), S - {sid})
  {
    var T' := PulledFrom(T, S[sid].teacher, sid);
    var S' := S - {sid};
    forall t, x | t in T' && x in T'[t].students ensures x in S' && S'[x].teacher == Some(t) {
      if S[sid].teacher == Some(t) {
        WithoutMembers(T[t].students, sid, x);
      } else {
        assert x in T[t].students;
      }
    }
    forall x | x in S' && S'[x].teacher.Some? ensures S'[x].teacher.value in T' && x in T'[S'[x].teacher.value].students {
      var t := S[x].teacher.value;
      if S[sid].teacher == Some(t) {
        WithoutMembers(T[t].students, sid, x);
      }
    }
  }

  /** `deleteTeacher` unsets every back-reference to the teacher and then deletes it,
      which keeps the invariant. */
  lemma DeleteTeacherKeepsConsistent(T: map<Id, Teacher>, S: map<Id, Student>, tid: Id)
    requires Consistent(T, S) && tid in T
    ensures Consistent(T - {tid}, UnsetRefsTo(S, tid))
  {
    var T' := T - {tid};
    var S' := UnsetRefsTo(S, tid);
    forall t, x | t in T' && x in T'[t].students ensures x in S' && S'[x].teacher == Some(t) {
      assert x in T[t].students;
    }
  }

  /** `createTeacher` adds a teacher with an empty roster under a fresh id, which
      keeps the invariant. */
  lemma CreateTeacherKeepsConsistent(T: map<Id, Teacher>, S: map<Id, Student>, tid: Id, t: Teacher)
    requires Consistent(T, S) && tid !in T && t.students == []
    ensures Consistent(T[tid := t], S)
  {
    var T' := T[tid := t];
    forall u, x | u in T' && x in T'[u].students ensures x in S && S[x].teacher == Some(u) {
      assert x in T[u].students;
    }
  }

  /** `updateTeacher` never touches the roster, which keeps the invariant. */
  lemma UpdateTeacherKeepsConsistent(T: map<Id, Teacher>, S: map<Id, Student>, tid: Id, t: Teacher)
    requires Consistent(T, S) && tid in T && t.students == T[tid].students
    ensures Consistent(T[tid := t], S)
  {
    var T' := T[tid := t];
    forall u, x | u in T' && x in T'[u].students ensures x in S && S[x].teacher == Some(u) {
      assert x in T[u].students;
    }
  }

  /** `updateStudent` rewrites only `student.teacher` and no roster, so it keeps the
      invariant exactly when the reference does not change. */
  lemma UpdateStudentConsistentIff(T: map<Id, Teacher>, S: map<Id, Student>, sid: Id, s: Student)
    requires Consistent(T, S) && sid in S
    requires s.teacher.Some? ==> s.teacher.value in T
    ensures Consistent(T, S[sid := s]) <==> s.teacher == S[sid].teacher
  {
    var S' := S[sid := s];
    if s.teacher != S[sid].teacher {
      if S[sid].teacher.Some? {
        var t0 := S[sid].teacher.value;
        assert sid in T[t0].students && S'[sid].teacher != Some(t0);
      } else {
        var t1 := s.teacher.value;
        assert sid !in T[t1].students;
      }
    }
  }

  /** The reassignment scenario: T1 and T2 exist, S1 is created under T1 and then
      assigned to T2. S1 points to T2 while T1's roster still lists S1, and the
      store is no longer consistent. */
  lemma ReassignScenario(t1: Teacher, t2: Teacher, s1: Student)
    requires t1.students == [] && t2.students == [] && s1.teacher == Some("T1")
    ensures var T0 := map["T1" := t1, "T2" := t2];
            var T1 := SetRoster(T0, "T1", Added(T0["T1"].students, "S1"));
            var S1 := map["S1" := s1];
            var T2 := SetRoster(T1, "T2", Added(T1["T2"].students, "S1"));
            var S2 := SetRef(S1, "S1", Some("T2"));
            && Consistent(T1, S1)
            && T1["T1"].students == ["S1"]
            && S2["S1"].teacher == Some("T2") && T2["T1"].students == ["S1"] && T2["T2"].students == ["S1"]
            && !Consistent(T2, S2)
  {
    var T0 := map["T1" := t1, "T2" := t2];
    var T1 := SetRoster(T0, "T1", Added(T0["T1"].students, "S1"));
    var S1 := map["S1" := s1];
    CreateTeacherKeepsConsistent(map[], map[], "T1", t1);
    CreateTeacherKeepsConsistent(map["T1" := t1], map[], "T2", t2);
    assert map["T1" := t1][ "T2" := t2] == T0;
    CreateStudentKeepsConsistent(T0, map[], "T1", "S1", s1);
    assert map[][ "S1" := s1] == S1;
    AssignConsistentIff(T1, S1, "T2", "S1");
  }
}
