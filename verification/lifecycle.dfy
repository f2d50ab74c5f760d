/** The account lifecycle across calls: soft delete and restore undo each
    other, a hard delete removes the user's own rows and taught courses,
    and restoring after a hard delete brings back the user row only. */
module Lifecycle {
  import opened Rows
  import opened Transitions

  /** Restoring the record a soft delete wrote gives back the store as it
      was; only the id counter has moved on. */
  lemma {:induction false} SoftDeleteThenRestore(t: Tables, id: int)
    requires Valid(t) && id in t.users && t.users[id].isActive
    ensures DeleteUser(t, id).result
    ensures RestoreUser(DeleteUser(t, id).db, t.nextId) == Step(t.(nextId := t.nextId + 1), Returned(true))
  {
    var u := t.users[id];
    var d := DeleteUser(t, id).db;
    var rec := d.deletedUsers[t.nextId];
    assert rec == DeletedUser(id, u);
    assert !EmailHeldByOther(d.users, u.email, id) by {
      forall k | k in d.users && k != id
        ensures d.users[k].email != u.email
      {
        assert d.users[k] == t.users[k];
      }
    }
    assert RestoredRow(d.users, rec) == u;
    assert d.users[id := u] == t.users;
    assert d.deletedUsers - {t.nextId} == t.deletedUsers;
  }

  /** A second soft delete finds the user inactive and changes nothing. */
  lemma DeleteUserTwice(t: Tables, id: int)
    requires Valid(t)
    ensures var once := DeleteUser(t, id);
            DeleteUser(once.db, id) == Step(once.db, false)
  {
  }

  /** Everything a hard delete removes, and everything it keeps. Rows that
      hang off the user's courses but are not listed (quizzes of the deleted
      lessons, submissions to their assignments) stay behind. */
  lemma PurgeUserEffects(t: Tables, id: int)
    requires Valid(t) && id in t.users
    ensures var r := PurgeUser(t, id).db;
            var taught := TaughtCourses(t.courses, id);
            && r.users == t.users - {id}
            && r.deletedUsers == t.deletedUsers[t.nextId := DeletedUser(id, t.users[id])]
            && r.nextId == t.nextId + 1
            && (forall m :: m in r.members <==> m in t.members && m.studentId != id && m.courseId !in taught)
            && (forall s :: s in r.submissions <==> s in t.submissions && t.submissions[s].studentId != id)
            && (forall s :: s in r.submissions ==> r.submissions[s] == t.submissions[s])
            && (forall a :: a in r.attempts <==> a in t.attempts && t.attempts[a].studentId != id)
            && (forall a :: a in r.attempts ==> r.attempts[a] == t.attempts[a])
            && (forall c :: c in r.courses <==> c in t.courses && t.courses[c].teacherId != id)
            && (forall c :: c in r.courses ==> r.courses[c] == t.courses[c])
            && (forall l :: l in r.lessons <==> l in t.lessons && t.lessons[l].courseId !in taught)
            && (forall l :: l in r.lessons ==> r.lessons[l] == t.lessons[l])
            && (forall a :: a in r.assignments <==>
                  a in t.assignments && t.assignments[a].lessonId !in LessonsOfCourses(t.lessons, taught))
            && (forall a :: a in r.assignments ==> r.assignments[a] == t.assignments[a])
            && r.quizzes == t.quizzes && r.resources == t.resources && r.deletedCourses == t.deletedCourses
  {
    var taught := TaughtCourses(t.courses, id);
    var snapshotted := t.(deletedUsers := t.deletedUsers[t.nextId := DeletedUser(id, t.users[id])],
                          nextId := t.nextId + 1);
    var ownRowsGone := snapshotted.(members := MembersNotOf(t.members, id),
                                    submissions := SubmissionsNotBy(t.submissions, id),
                                    attempts := AttemptsNotBy(t.attempts, id));
    DropCoursesEffects(ownRowsGone, taught);
    assert PurgeUser(t, id).db == DropCourses(ownRowsGone, taught).(users := t.users - {id});
  }

  /** The part of a hard delete that concerns the account itself: the user
      row goes, the snapshot is recorded, and no membership or submission of
      the user survives. */
  lemma PurgeUserAccount(t: Tables, id: int)
    requires Valid(t) && id in t.users
    ensures var r := PurgeUser(t, id).db;
            && r.users == t.users - {id}
            && r.deletedUsers == t.deletedUsers[t.nextId := DeletedUser(id, t.users[id])]
            && r.nextId == t.nextId + 1
            && (forall m :: m in r.members ==> m.studentId != id)
            && (forall s :: s in r.submissions ==> r.submissions[s].studentId != id)
  {
    var taught := TaughtCourses(t.courses, id);
    var snapshotted := t.(deletedUsers := t.deletedUsers[t.nextId := DeletedUser(id, t.users[id])],
                          nextId := t.nextId + 1);
    var ownRowsGone := snapshotted.(members := MembersNotOf(t.members, id),
                                    submissions := SubmissionsNotBy(t.submissions, id),
                                    attempts := AttemptsNotBy(t.attempts, id));
    DropCoursesShrinks(ownRowsGone, taught);
    assert PurgeUser(t, id).db == DropCourses(ownRowsGone, taught).(users := t.users - {id});
  }

  /** Restoring after a hard delete re-inserts the user row, active, under
      its old id; the rows the purge removed do not come back. */
  lemma {:induction false} PurgeThenRestore(t: Tables, id: int)
    requires Valid(t) && id in t.users
    ensures var p := PurgeUser(t, id).db;
            var r := RestoreUser(p, t.nextId);
            && r.result == Returned(true)
            && r.db.users == t.users[id := t.users[id].(isActive := true)]
            && r.db.deletedUsers == t.deletedUsers
            && (forall m :: m in r.db.members ==> m.studentId != id)
            && (forall s :: s in r.db.submissions ==> r.db.submissions[s].studentId != id)
  {
    var u := t.users[id];
    var p := PurgeUser(t, id).db;
    PurgeUserAccount(t, id);
    var rec := p.deletedUsers[t.nextId];
    assert rec == DeletedUser(id, u);
    assert id !in p.users;
    assert !EmailHeldByOther(p.users, u.email, id) by {
      forall k | k in p.users && k != id
        ensures p.users[k].email != u.email
      {
        assert p.users[k] == t.users[k];
      }
    }
    assert RestoredRow(p.users, rec) == u.(isActive := true);
    assert (t.users - {id})[id := u.(isActive := true)] == t.users[id := u.(isActive := true)];
    assert p.deletedUsers - {t.nextId} == t.deletedUsers;
  }

  /** If the email was taken again while the account was purged, restore
      raises IntegrityError and leaves the store alone. */
  lemma {:induction false} RestoreAfterEmailReused(t: Tables, id: int, name: string, credential: string, role: Role)
    requires Valid(t) && id in t.users
    ensures var p := PurgeUser(t, id).db;
            var c := CreateUser(p, name, t.users[id].email, credential, role, None, None);
            && c.result.Returned?
            && RestoreUser(c.db, t.nextId) == Step(c.db, Raised(IntegrityError))
  {
    var u := t.users[id];
    var p := PurgeUser(t, id).db;
    PurgeUserAccount(t, id);
    assert !EmailInUse(p.users, u.email) by {
      forall k | k in p.users
        ensures p.users[k].email != u.email
      {
        assert p.users[k] == t.users[k];
      }
    }
    var c := CreateUser(p, name, u.email, credential, role, None, None);
    var newId := c.result.value;
    assert newId != id;
    assert c.db.users[newId].email == u.email;
    assert c.db.deletedUsers[t.nextId] == DeletedUser(id, u);
    assert EmailHeldByOther(c.db.users, u.email, id);
  }
}
