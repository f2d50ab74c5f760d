/** Courses, join codes and memberships across calls. */
module Enrolment {
  import opened Rows
  import opened JoinCodes
  import opened Transitions
  import Lifecycle

  /** Joining is idempotent: the membership is a set, and a repeated insert
      is the swallowed IntegrityError. */
  lemma JoinTwice(t: Tables, studentId: int, code: string)
    requires Valid(t)
    ensures var once := JoinClass(t, studentId, code);
            JoinClass(once.db, studentId, code) == once
  {
    var once := JoinClass(t, studentId, code);
    if once.result.Returned? {
      assert once.db.members + {Member(once.result.value, studentId)} == once.db.members;
    }
  }

  /** A student who joins and then is removed leaves the memberships as they
      were, if they were not a member before. */
  lemma {:induction false} JoinThenRemove(t: Tables, studentId: int, code: string)
    requires Valid(t)
    requires JoinClass(t, studentId, code).result.Returned?
    requires Member(JoinClass(t, studentId, code).result.value, studentId) !in t.members
    ensures var j := JoinClass(t, studentId, code);
            RemoveMember(j.db, j.result.value, studentId) == Step(t, true)
  {
    var j := JoinClass(t, studentId, code);
    var m := Member(j.result.value, studentId);
    assert (t.members + {m}) - {m} == t.members;
  }

  /** A course created with a generated code can be joined with that code,
      typed in any case and with white space around it. */
  lemma {:induction false} CreateThenJoin(t: Tables, title: string, description: string, teacherId: int,
                                          candidates: seq<string>, studentId: int,
                                          before: string, typed: string, after: string)
    requires Valid(t)
    requires |candidates| == CodeAttempts
    requires forall i :: 0 <= i < |candidates| ==> IsJoinCode(candidates[i])
    requires FirstUnused(candidates, t.courses) < CodeAttempts
    requires forall i :: 0 <= i < |before| ==> IsSpace(before[i])
    requires forall i :: 0 <= i < |after| ==> IsSpace(after[i])
    requires SameUpToCase(typed, candidates[FirstUnused(candidates, t.courses)])
    ensures var created := CreateCourse(t, title, description, teacherId, None, candidates);
            && created.result.Returned?
            && var id := created.result.value;
               var code := created.db.courses[id].code;
               JoinClass(created.db, studentId, before + typed + after)
                 == Step(created.db.(members := created.db.members + {Member(id, studentId)}), Returned(id))
  {
    var created := CreateCourse(t, title, description, teacherId, None, candidates);
    var id := created.result.value;
    var code := created.db.courses[id].code;
    NormalizeTypedCode(code, before, typed, after);
    assert CourseWithCode(created.db.courses, code) == Some(id);
  }

  /** A supplied code is not checked against existing courses. When an
      older course already has it, joining with it always reaches the older
      course, never the new one. */
  lemma {:induction false} SuppliedCodeShadowed(t: Tables, title: string, description: string, teacherId: int,
                                                code: string, candidates: seq<string>, studentId: int, typed: string)
    requires Valid(t)
    requires |candidates| == CodeAttempts
    requires forall i :: 0 <= i < |candidates| ==> IsJoinCode(candidates[i])
    requires code != "" && Normalize(typed) == code && CodeInUse(t.courses, code)
    ensures var created := CreateCourse(t, title, description, teacherId, Some(code), candidates);
            && created.result.Returned?
            && var id := created.result.value;
               && created.db.courses[id].code == code
               && var joined := JoinClass(created.db, studentId, typed);
                  joined.result.Returned? && joined.result.value != id && joined.result.value in t.courses
  {
    var created := CreateCourse(t, title, description, teacherId, Some(code), candidates);
    var id := created.result.value;
    var older :| older in t.courses && t.courses[older].code == code;
    assert created.db.courses[older].code == code;
    assert older < id;
  }

  /** A supplied code with a lower-case letter can never be joined: lookup
      upper-cases what the student types. */
  lemma {:induction false} LowerCaseSuppliedCodeUnreachable(t: Tables, title: string, description: string,
                                                            teacherId: int, code: string, candidates: seq<string>,
                                                            studentId: int, typed: string, i: int)
    requires Valid(t)
    requires |candidates| == CodeAttempts
    requires forall i :: 0 <= i < |candidates| ==> IsJoinCode(candidates[i])
    requires 0 <= i < |code| && 'a' <= code[i] <= 'z'
    ensures var created := CreateCourse(t, title, description, teacherId, Some(code), candidates);
            && created.result.Returned?
            && JoinClass(created.db, studentId, typed).result != Returned(created.result.value)
  {
    var created := CreateCourse(t, title, description, teacherId, Some(code), candidates);
    var key := Normalize(typed);
    if |key| == |code| {
      assert key[i] == UpperChar(Strip(typed)[i]);
      assert key[i] != code[i];
    }
    assert key != code;
  }

  /** Deleting a course, editing one and hard-deleting a user never make
      two courses share a code: none of them adds a course or changes a code. */
  lemma RemoveCourseKeepsCodesDistinct(t: Tables, courseId: int, teacherId: int)
    requires Valid(t) && CodesDistinct(t.courses)
    ensures CodesDistinct(RemoveCourse(t, courseId, teacherId).db.courses)
  {
    if courseId in t.courses && t.courses[courseId].teacherId == teacherId {
      DropCoursesEffects(t.(deletedCourses := RemoveCourse(t, courseId, teacherId).db.deletedCourses,
                            nextId := t.nextId + 1), {courseId});
    }
  }

  lemma UpdateCourseKeepsCodesDistinct(t: Tables, courseId: int, title: string, description: string)
    requires Valid(t) && CodesDistinct(t.courses)
    ensures CodesDistinct(UpdateCourse(t, courseId, title, description).db.courses)
  {
  }

  lemma PurgeUserKeepsCodesDistinct(t: Tables, userId: int)
    requires Valid(t) && CodesDistinct(t.courses)
    ensures CodesDistinct(PurgeUser(t, userId).db.courses)
  {
    if userId in t.users {
      Lifecycle.PurgeUserEffects(t, userId);
    }
  }
}
