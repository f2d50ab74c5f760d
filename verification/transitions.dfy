/** What each service function does to the store, as a function from the
    tables before the call to the tables after it and the value returned or
    the exception raised. The Store class's methods are proved to perform
    exactly these transitions. */
module Transitions {
  import opened Rows
  import opened JoinCodes
  import opened Scoring
  import opened CsvText
  import opened Ordering

  /** The store after a call, and what the call gave back. */
  datatype Step<R> = Step(db: Tables, result: R)

  /** The dictionary `evaluate_quiz_attempt` returns. */
  datatype QuizResult = QuizResult(score: real, correct: nat, total: nat)

  // ---------------------------------------------------------------------
  // Row selections used by the delete chains (the WHERE clauses).
  // ---------------------------------------------------------------------

  /** `SELECT id FROM courses WHERE teacher_id = ?` */
  function TaughtCourses(courses: map<int, Course>, teacherId: int): set<int> {
    set c | c in courses && courses[c].teacherId == teacherId
  }

  /** `SELECT id FROM lessons WHERE course_id IN ...` */
  function LessonsOfCourses(lessons: map<int, Lesson>, courseIds: set<int>): set<int> {
    set l | l in lessons && lessons[l].courseId in courseIds
  }

  /** `DELETE FROM assignments WHERE lesson_id IN ...` */
  function AssignmentsOutside(assignments: map<int, Assignment>, lessonIds: set<int>): (r: map<int, Assignment>)
    ensures forall a :: a in r <==> a in assignments && assignments[a].lessonId !in lessonIds
    ensures forall a :: a in r ==> r[a] == assignments[a]
  {
    map a | a in assignments && assignments[a].lessonId !in lessonIds :: assignments[a]
  }

  /** `DELETE FROM submissions WHERE student_id = ?` */
  function SubmissionsNotBy(submissions: map<int, Submission>, studentId: int): (r: map<int, Submission>)
    ensures forall s :: s in r <==> s in submissions && submissions[s].studentId != studentId
    ensures forall s :: s in r ==> r[s] == submissions[s]
  {
    map s | s in submissions && submissions[s].studentId != studentId :: submissions[s]
  }

  /** `DELETE FROM submissions WHERE assignment_id = ?` */
  function SubmissionsNotFor(submissions: map<int, Submission>, assignmentId: int): (r: map<int, Submission>)
    ensures forall s :: s in r <==> s in submissions && submissions[s].assignmentId != assignmentId
    ensures forall s :: s in r ==> r[s] == submissions[s]
  {
    map s | s in submissions && submissions[s].assignmentId != assignmentId :: submissions[s]
  }

  /** `DELETE FROM attempts WHERE student_id = ?` */
  function AttemptsNotBy(attempts: map<int, Attempt>, studentId: int): (r: map<int, Attempt>)
    ensures forall a :: a in r <==> a in attempts && attempts[a].studentId != studentId
    ensures forall a :: a in r ==> r[a] == attempts[a]
  {
    map a | a in attempts && attempts[a].studentId != studentId :: attempts[a]
  }

  /** `DELETE FROM class_members WHERE student_id = ?` */
  function MembersNotOf(members: set<Member>, studentId: int): (r: set<Member>)
    ensures forall m :: m in r <==> m in members && m.studentId != studentId
  {
    set m | m in members && m.studentId != studentId
  }

  /** `DELETE FROM class_members WHERE course_id IN ...` */
  function MembersOutside(members: set<Member>, courseIds: set<int>): (r: set<Member>)
    ensures forall m :: m in r <==> m in members && m.courseId !in courseIds
  {
    set m | m in members && m.courseId !in courseIds
  }

  /** `DELETE FROM lessons WHERE course_id IN ...` */
  function LessonsOutside(lessons: map<int, Lesson>, courseIds: set<int>): (r: map<int, Lesson>)
    ensures forall l :: l in r <==> l in lessons && lessons[l].courseId !in courseIds
    ensures forall l :: l in r ==> r[l] == lessons[l]
  {
    map l | l in lessons && lessons[l].courseId !in courseIds :: lessons[l]
  }

  /** The course part of a delete chain, for every course in `cs`: its
      memberships, the assignments of its lessons, its lessons and the course
      row. Submissions, quizzes and everything else stay. */
  function DropCourses(t: Tables, cs: set<int>): Tables
  {
    t.(members := MembersOutside(t.members, cs),
       assignments := AssignmentsOutside(t.assignments, LessonsOfCourses(t.lessons, cs)),
       lessons := LessonsOutside(t.lessons, cs),
       courses := t.courses - cs)
  }

  /** What dropping courses removes, and that it changes nothing else. */
  lemma DropCoursesEffects(t: Tables, cs: set<int>)
    ensures var r := DropCourses(t, cs);
            && (forall c :: c in r.courses <==> c in t.courses && c !in cs)
            && (forall m :: m in r.members <==> m in t.members && m.courseId !in cs)
            && (forall l :: l in r.lessons <==> l in t.lessons && t.lessons[l].courseId !in cs)
            && (forall a :: a in r.assignments <==>
                  a in t.assignments && t.assignments[a].lessonId !in LessonsOfCourses(t.lessons, cs))
            && (forall c :: c in r.courses ==> r.courses[c] == t.courses[c])
            && (forall l :: l in r.lessons ==> r.lessons[l] == t.lessons[l])
            && (forall a :: a in r.assignments ==> r.assignments[a] == t.assignments[a])
            && r == t.(courses := r.courses, members := r.members, lessons := r.lessons,
                       assignments := r.assignments)
  {
  }

  /** Dropping no course changes nothing. */
  lemma DropNoCourse(t: Tables)
    ensures DropCourses(t, {}) == t
  {
    assert MembersOutside(t.members, {}) == t.members;
    assert LessonsOutside(t.lessons, {}) == t.lessons;
    assert AssignmentsOutside(t.assignments, LessonsOfCourses(t.lessons, {})) == t.assignments;
    assert t.courses - {} == t.courses;
  }

  /** Dropping courses one at a time, in any order, is dropping them all at
      once: the loop over a teacher's courses does the set-wise delete. */
  lemma DropOneMore(t: Tables, done: set<int>, c: int)
    ensures DropCourses(DropCourses(t, done), {c}) == DropCourses(t, done + {c})
  {
    var once := DropCourses(t, done);
    MembersOutsideTwice(t.members, done, c);
    LessonsOutsideTwice(t.lessons, done, c);
    LessonsOfCoursesTwice(t.lessons, done, c);
    AssignmentsOutsideTwice(t.assignments, LessonsOfCourses(t.lessons, done), LessonsOfCourses(once.lessons, {c}));
  }

  lemma MembersOutsideTwice(members: set<Member>, done: set<int>, c: int)
    ensures MembersOutside(MembersOutside(members, done), {c}) == MembersOutside(members, done + {c})
  {
  }

  lemma LessonsOutsideTwice(lessons: map<int, Lesson>, done: set<int>, c: int)
    ensures LessonsOutside(LessonsOutside(lessons, done), {c}) == LessonsOutside(lessons, done + {c})
  {
  }

  lemma LessonsOfCoursesTwice(lessons: map<int, Lesson>, done: set<int>, c: int)
    ensures LessonsOfCourses(lessons, done + {c})
         == LessonsOfCourses(lessons, done) + LessonsOfCourses(LessonsOutside(lessons, done), {c})
  {
  }

  lemma AssignmentsOutsideTwice(assignments: map<int, Assignment>, first: set<int>, second: set<int>)
    ensures AssignmentsOutside(AssignmentsOutside(assignments, first), second)
         == AssignmentsOutside(assignments, first + second)
  {
  }

  lemma DropCoursesShrinks(t: Tables, cs: set<int>)
    ensures Shrunk(t, DropCourses(t, cs))
  {
  }

  // ---------------------------------------------------------------------
  // Users
  // ---------------------------------------------------------------------

  ghost function CreateUser(t: Tables, name: string, email: string, credential: string, role: Role,
                            schoolId: Option<string>, bio: Option<string>): (r: Step<Outcome<int>>)
    requires Valid(t)
    ensures Valid(r.db)
    ensures r.result.Raised? <==> EmailInUse(t.users, email)
    ensures r.result.Raised? ==> r.result.error == IntegrityError && r.db == t
    ensures r.result.Returned? ==>
              var id := r.result.value;
              && id !in t.users
              && r.db.users == t.users[id := User(name, email, credential, role, schoolId, bio, true)]
              && r.db == t.(users := r.db.users, nextId := r.db.nextId)
  {
    if EmailInUse(t.users, email) then Step(t, Raised(IntegrityError))
    else
      var row := User(name, email, credential, role, schoolId, bio, true);
      Step(t.(users := t.users[t.nextId := row], nextId := t.nextId + 1), Returned(t.nextId))
  }

  ghost function UpdateUserProfile(t: Tables, id: int, name: string, email: string,
                                   schoolId: Option<string>, bio: Option<string>): (r: Step<Outcome<bool>>)
    requires Valid(t)
    ensures Valid(r.db)
    ensures r.result.Raised? <==> id in t.users && EmailHeldByOther(t.users, email, id)
    ensures r.result.Raised? ==> r.result.error == IntegrityError && r.db == t
    ensures r.result.Returned? ==> r.result.value && r.db == t.(users := r.db.users)
    ensures r.result.Returned? && id in t.users ==>
              r.db.users == t.users[id := t.users[id].(name := name, email := email, schoolId := schoolId, bio := bio)]
    ensures id !in t.users ==> r.db == t
  {
    if id !in t.users then Step(t, Returned(true))
    else if EmailHeldByOther(t.users, email, id) then Step(t, Raised(IntegrityError))
    else
      var row := t.users[id].(name := name, email := email, schoolId := schoolId, bio := bio);
      Step(t.(users := t.users[id := row]), Returned(true))
  }

  ghost function SetUserRole(t: Tables, id: int, role: Role): (r: Step<()>)
    requires Valid(t)
    ensures Valid(r.db)
    ensures id in t.users ==> r.db.users == t.users[id := t.users[id].(role := role)]
    ensures r.db == t.(users := r.db.users) && r.db.users.Keys == t.users.Keys
  {
    if id in t.users then Step(t.(users := t.users[id := t.users[id].(role := role)]), ())
    else Step(t, ())
  }

  /** Soft delete: the user row stays, marked inactive, and a snapshot of the
      row as it was is recorded. */
  ghost function DeleteUser(t: Tables, id: int): (r: Step<bool>)
    requires Valid(t)
    ensures Valid(r.db)
    ensures r.result <==> id in t.users && t.users[id].isActive
    ensures !r.result ==> r.db == t
    ensures r.result ==>
              && r.db.users == t.users[id := t.users[id].(isActive := false)]
              && t.nextId !in t.deletedUsers
              && r.db.deletedUsers == t.deletedUsers[t.nextId := DeletedUser(id, t.users[id])]
              && r.db == t.(users := r.db.users, deletedUsers := r.db.deletedUsers, nextId := t.nextId + 1)
  {
    if id !in t.users || !t.users[id].isActive then Step(t, false)
    else
      var u := t.users[id];
      Step(t.(users := t.users[id := u.(isActive := false)],
              deletedUsers := t.deletedUsers[t.nextId := DeletedUser(id, u)],
              nextId := t.nextId + 1), true)
  }

  /** Hard delete. The snapshot is the full row; the user's memberships,
      submissions and attempts go, then every course the user teaches goes
      with its memberships, lessons and those lessons' assignments (no
      deleted_courses record is written for them), then the user row. */
  ghost function PurgeUser(t: Tables, id: int): (r: Step<bool>)
    requires Valid(t)
    ensures Valid(r.db)
    ensures r.result <==> id in t.users
    ensures !r.result ==> r.db == t
  {
    if id !in t.users then Step(t, false)
    else
      var snapshotted := t.(deletedUsers := t.deletedUsers[t.nextId := DeletedUser(id, t.users[id])],
                            nextId := t.nextId + 1);
      var ownRowsGone := snapshotted.(members := MembersNotOf(t.members, id),
                                      submissions := SubmissionsNotBy(t.submissions, id),
                                      attempts := AttemptsNotBy(t.attempts, id));
      assert Valid(snapshotted);
      ShrinkKeepsValid(snapshotted, ownRowsGone);
      var coursesGone := DropCourses(ownRowsGone, TaughtCourses(t.courses, id));
      DropCoursesShrinks(ownRowsGone, TaughtCourses(t.courses, id));
      ShrinkKeepsValid(ownRowsGone, coursesGone);
      var final := coursesGone.(users := t.users - {id});
      ShrinkKeepsValid(coursesGone, final);
      Step(final, true)
  }

  /** The user row `restore_user` writes back over a row still present: the
      update_parts loop copies name, email and role, and school id and bio
      only where the snapshot has them. */
  datatype Column = NameColumn | EmailColumn | RoleColumn | SchoolIdColumn | BioColumn

  const RestoreColumns := [NameColumn, EmailColumn, RoleColumn, SchoolIdColumn, BioColumn]

  function CopyColumn(row: User, snap: User, column: Column): User {
    match column
    case NameColumn => row.(name := snap.name)
    case EmailColumn => row.(email := snap.email)
    case RoleColumn => row.(role := snap.role)
    case SchoolIdColumn => if snap.schoolId.Some? then row.(schoolId := snap.schoolId) else row
    case BioColumn => if snap.bio.Some? then row.(bio := snap.bio) else row
  }

  function CopyColumns(row: User, snap: User, columns: seq<Column>): (r: User)
    ensures r.passwordHash == row.passwordHash && r.isActive == row.isActive
    decreases |columns|
  {
    if columns == [] then row
    else CopyColumns(CopyColumn(row, snap, columns[0]), snap, columns[1..])
  }

  /** An existing row after restore: active again, with the snapshot's
      non-null profile values; its password stays as it is. */
  function Reactivated(current: User, snap: User): (u: User)
    ensures u.isActive && u.passwordHash == current.passwordHash
    ensures u.name == snap.name && u.email == snap.email && u.role == snap.role
    ensures u.schoolId == (if snap.schoolId.Some? then snap.schoolId else current.schoolId)
    ensures u.bio == (if snap.bio.Some? then snap.bio else current.bio)
  {
    var row := current.(isActive := true);
    CopyAllColumns(row, snap);
    CopyColumns(row, snap, RestoreColumns)
  }

  /** Running the column loop over all five columns. */
  lemma CopyAllColumns(row: User, snap: User)
    ensures CopyColumns(row, snap, RestoreColumns)
         == row.(name := snap.name, email := snap.email, role := snap.role,
                 schoolId := if snap.schoolId.Some? then snap.schoolId else row.schoolId,
                 bio := if snap.bio.Some? then snap.bio else row.bio)
  {
    var cols := RestoreColumns;
    assert cols[1..] == [EmailColumn, RoleColumn, SchoolIdColumn, BioColumn];
    assert cols[1..][1..] == [RoleColumn, SchoolIdColumn, BioColumn];
    assert cols[1..][1..][1..] == [SchoolIdColumn, BioColumn];
    assert cols[1..][1..][1..][1..] == [BioColumn];
    assert cols[1..][1..][1..][1..][1..] == [];
  }

  /** A row re-inserted after a purge: every snapshot column, active. */
  function Reinserted(snap: User): User {
    snap.(isActive := true)
  }

  /** The row restore leaves at the snapshot's user id. */
  function RestoredRow(users: map<int, User>, rec: DeletedUser): User {
    if rec.userId in users then Reactivated(users[rec.userId], rec.snapshot) else Reinserted(rec.snapshot)
  }

  ghost function RestoreUser(t: Tables, deletedId: int): (r: Step<Outcome<bool>>)
    requires Valid(t)
    ensures Valid(r.db)
    ensures deletedId !in t.deletedUsers ==> r == Step(t, Returned(false))
    ensures deletedId in t.deletedUsers ==>
              var rec := t.deletedUsers[deletedId];
              && (r.result.Raised? <==> EmailHeldByOther(t.users, rec.snapshot.email, rec.userId))
              && (r.result.Raised? ==> r.result.error == IntegrityError && r.db == t)
              && (r.result.Returned? ==>
                    && r.result.value
                    && r.db.deletedUsers == t.deletedUsers - {deletedId}
                    && r.db.users == t.users[rec.userId := RestoredRow(t.users, rec)]
                    && r.db == t.(users := r.db.users, deletedUsers := r.db.deletedUsers))
  {
    if deletedId !in t.deletedUsers then Step(t, Returned(false))
    else
      var rec := t.deletedUsers[deletedId];
      if EmailHeldByOther(t.users, rec.snapshot.email, rec.userId) then Step(t, Raised(IntegrityError))
      else
        Step(t.(users := t.users[rec.userId := RestoredRow(t.users, rec)],
                deletedUsers := t.deletedUsers - {deletedId}), Returned(true))
  }

  ghost function DeleteDeletedRecord(t: Tables, deletedId: int): (r: Step<bool>)
    requires Valid(t)
    ensures Valid(r.db)
    ensures r.result <==> deletedId in t.deletedUsers
    ensures deletedId !in r.db.deletedUsers
    ensures r.db == t.(deletedUsers := t.deletedUsers - {deletedId})
  {
    Step(t.(deletedUsers := t.deletedUsers - {deletedId}), deletedId in t.deletedUsers)
  }

  // ---------------------------------------------------------------------
  // Courses and enrolment
  // ---------------------------------------------------------------------

  /** `if not code`: a None or empty code means "generate one". */
  predicate CodeSupplied(code: Option<string>) {
    code.Some? && code.value != ""
  }

  ghost function CreateCourse(t: Tables, title: string, description: string, teacherId: int,
                              code: Option<string>, candidates: seq<string>): (r: Step<Outcome<int>>)
    requires Valid(t)
    requires |candidates| == CodeAttempts
    requires forall i :: 0 <= i < |candidates| ==> IsJoinCode(candidates[i])
    ensures Valid(r.db)
    ensures r.result.Raised? <==> !CodeSupplied(code) && FirstUnused(candidates, t.courses) == CodeAttempts
    ensures r.result.Raised? ==> r.result.error == RuntimeError && r.db == t
    ensures r.result.Returned? ==>
              var id := r.result.value;
              && id !in t.courses && id in r.db.courses
              && r.db.courses == t.courses[id := r.db.courses[id]]
              && r.db.courses[id].title == title && r.db.courses[id].description == description
              && r.db.courses[id].teacherId == teacherId
              && r.db == t.(courses := r.db.courses, nextId := r.db.nextId)
              && (CodeSupplied(code) ==> r.db.courses[id].code == code.value)
              && (!CodeSupplied(code) ==>
                    && r.db.courses[id].code == candidates[FirstUnused(candidates, t.courses)]
                    && IsJoinCode(r.db.courses[id].code)
                    && !CodeInUse(t.courses, r.db.courses[id].code))
    ensures r.result.Returned? && !CodeSupplied(code) && CodesDistinct(t.courses) ==> CodesDistinct(r.db.courses)
  {
    var k := FirstUnused(candidates, t.courses);
    if !CodeSupplied(code) && k == |candidates| then Step(t, Raised(RuntimeError))
    else
      var chosen := if CodeSupplied(code) then code.value else candidates[k];
      Step(t.(courses := t.courses[t.nextId := Course(title, description, teacherId, chosen)],
              nextId := t.nextId + 1), Returned(t.nextId))
  }

  /** The courses whose code is `code`. */
  function CoursesWithCode(courses: map<int, Course>, code: string): (r: set<int>)
    ensures forall c :: c in r <==> c in courses && courses[c].code == code
  {
    set c | c in courses && courses[c].code == code
  }

  /** The course `SELECT id FROM courses WHERE code = ?` returns first. The
      model assumes the code column has no index, so the rowid scan meets the
      lowest id first. */
  ghost function CourseWithCode(courses: map<int, Course>, code: string): (r: Option<int>)
    ensures r.None? <==> !CodeInUse(courses, code)
    ensures r.Some? ==> r.value in courses && courses[r.value].code == code
    ensures r.Some? ==> forall c :: c in courses && courses[c].code == code ==> r.value <= c
  {
    if !CodeInUse(courses, code) then None
    else
      var matching := CoursesWithCode(courses, code);
      var w :| w in courses && courses[w].code == code;
      assert w in matching;
      Some(MinOf(matching))
  }

  ghost function JoinClass(t: Tables, studentId: int, code: string): (r: Step<Outcome<int>>)
    requires Valid(t)
    ensures Valid(r.db)
    ensures r.result.Raised? <==> !CodeInUse(t.courses, Normalize(code))
    ensures r.result.Raised? ==> r.result.error == ValueError && r.db == t
    ensures r.result.Returned? ==>
              && r.result.value in t.courses
              && t.courses[r.result.value].code == Normalize(code)
              && Some(r.result.value) == CourseWithCode(t.courses, Normalize(code))
              && (forall c :: c in t.courses && t.courses[c].code == Normalize(code) ==> r.result.value <= c)
              && Member(r.result.value, studentId) in r.db.members
              && r.db == t.(members := t.members + {Member(r.result.value, studentId)})
  {
    match CourseWithCode(t.courses, Normalize(code))
    case None => Step(t, Raised(ValueError))
    case Some(c) => Step(t.(members := t.members + {Member(c, studentId)}), Returned(c))
  }

  ghost function RemoveMember(t: Tables, courseId: int, studentId: int): (r: Step<bool>)
    requires Valid(t)
    ensures Valid(r.db)
    ensures r.result <==> Member(courseId, studentId) in t.members
    ensures Member(courseId, studentId) !in r.db.members
    ensures forall m :: m != Member(courseId, studentId) ==> (m in r.db.members <==> m in t.members)
    ensures r.db == t.(members := r.db.members)
  {
    Step(t.(members := t.members - {Member(courseId, studentId)}), Member(courseId, studentId) in t.members)
  }

  /** Owner-checked course deletion with its deleted_courses record. */
  ghost function RemoveCourse(t: Tables, courseId: int, teacherId: int): (r: Step<bool>)
    requires Valid(t)
    ensures Valid(r.db)
    ensures r.result <==> courseId in t.courses && t.courses[courseId].teacherId == teacherId
    ensures !r.result ==> r.db == t
    ensures r.result ==>
              && t.nextId !in t.deletedCourses
              && r.db.deletedCourses == t.deletedCourses[t.nextId :=
                   DeletedCourse(courseId, t.courses[courseId].title, teacherId, t.courses[courseId])]
              && r.db.nextId == t.nextId + 1
              && r.db == DropCourses(t, {courseId}).(deletedCourses := r.db.deletedCourses, nextId := r.db.nextId)
  {
    if courseId !in t.courses || t.courses[courseId].teacherId != teacherId then Step(t, false)
    else
      var c := t.courses[courseId];
      var snapshotted := t.(deletedCourses := t.deletedCourses[t.nextId := DeletedCourse(courseId, c.title, teacherId, c)],
                            nextId := t.nextId + 1);
      var final := DropCourses(snapshotted, {courseId});
      DropCoursesShrinks(snapshotted, {courseId});
      ShrinkKeepsValid(snapshotted, final);
      Step(final, true)
  }

  ghost function DeleteDeletedCourseRecord(t: Tables, recordId: int): (r: Step<()>)
    requires Valid(t)
    ensures Valid(r.db)
    ensures recordId !in r.db.deletedCourses
    ensures r.db == t.(deletedCourses := t.deletedCourses - {recordId})
  {
    Step(t.(deletedCourses := t.deletedCourses - {recordId}), ())
  }

  ghost function UpdateCourse(t: Tables, courseId: int, title: string, description: string): (r: Step<bool>)
    requires Valid(t)
    ensures Valid(r.db)
    ensures r.result
    ensures courseId in t.courses ==>
              r.db.courses == t.courses[courseId := t.courses[courseId].(title := title, description := description)]
    ensures r.db == t.(courses := r.db.courses) && r.db.courses.Keys == t.courses.Keys
  {
    if courseId in t.courses then
      Step(t.(courses := t.courses[courseId := t.courses[courseId].(title := title, description := description)]), true)
    else Step(t, true)
  }

  // ---------------------------------------------------------------------
  // Lessons, assignments, submissions
  // ---------------------------------------------------------------------

  ghost function CreateLesson(t: Tables, courseId: int, title: string, content: string,
                              attachment: Option<string>): (r: Step<int>)
    requires Valid(t)
    ensures Valid(r.db)
    ensures r.result !in t.lessons
    ensures r.db.lessons == t.lessons[r.result := Lesson(courseId, title, content, attachment)]
    ensures r.db == t.(lessons := r.db.lessons, nextId := r.db.nextId)
  {
    Step(t.(lessons := t.lessons[t.nextId := Lesson(courseId, title, content, attachment)],
            nextId := t.nextId + 1), t.nextId)
  }

  ghost function UpdateLesson(t: Tables, lessonId: int, title: string, content: string): (r: Step<bool>)
    requires Valid(t)
    ensures Valid(r.db)
    ensures r.result
    ensures lessonId in t.lessons ==>
              r.db.lessons == t.lessons[lessonId := t.lessons[lessonId].(title := title, content := content)]
    ensures r.db == t.(lessons := r.db.lessons) && r.db.lessons.Keys == t.lessons.Keys
  {
    if lessonId in t.lessons then
      Step(t.(lessons := t.lessons[lessonId := t.lessons[lessonId].(title := title, content := content)]), true)
    else Step(t, true)
  }

  /** Deletes the lesson and its assignments; their submissions stay. */
  ghost function DeleteLesson(t: Tables, lessonId: int): (r: Step<bool>)
    requires Valid(t)
    ensures Valid(r.db)
    ensures r.result
    ensures lessonId !in r.db.lessons && r.db.lessons == t.lessons - {lessonId}
    ensures forall a :: a in r.db.assignments <==> a in t.assignments && t.assignments[a].lessonId != lessonId
    ensures forall a :: a in r.db.assignments ==> r.db.assignments[a] == t.assignments[a]
    ensures r.db == t.(lessons := r.db.lessons, assignments := r.db.assignments)
  {
    Step(t.(assignments := AssignmentsOutside(t.assignments, {lessonId}),
            lessons := t.lessons - {lessonId}), true)
  }

  ghost function CreateAssignment(t: Tables, lessonId: int, title: string, description: Option<string>,
                                  dueDate: Option<string>): (r: Step<int>)
    requires Valid(t)
    ensures Valid(r.db)
    ensures r.result !in t.assignments
    ensures r.db.assignments == t.assignments[r.result := Assignment(lessonId, title, description, dueDate)]
    ensures r.db == t.(assignments := r.db.assignments, nextId := r.db.nextId)
  {
    Step(t.(assignments := t.assignments[t.nextId := Assignment(lessonId, title, description, dueDate)],
            nextId := t.nextId + 1), t.nextId)
  }

  ghost function UpdateAssignment(t: Tables, assignmentId: int, title: string, description: Option<string>,
                                  dueDate: Option<string>): (r: Step<bool>)
    requires Valid(t)
    ensures Valid(r.db)
    ensures r.result
    ensures assignmentId in t.assignments ==>
              r.db.assignments == t.assignments[assignmentId :=
                t.assignments[assignmentId].(title := title, description := description, dueDate := dueDate)]
    ensures r.db == t.(assignments := r.db.assignments) && r.db.assignments.Keys == t.assignments.Keys
  {
    if assignmentId in t.assignments then
      var a := t.assignments[assignmentId].(title := title, description := description, dueDate := dueDate);
      Step(t.(assignments := t.assignments[assignmentId := a]), true)
    else Step(t, true)
  }

  /** Deletes the assignment and exactly its submissions. */
  ghost function DeleteAssignment(t: Tables, assignmentId: int): (r: Step<bool>)
    requires Valid(t)
    ensures Valid(r.db)
    ensures r.result
    ensures r.db.assignments == t.assignments - {assignmentId}
    ensures forall s :: s in r.db.submissions <==> s in t.submissions && t.submissions[s].assignmentId != assignmentId
    ensures forall s :: s in r.db.submissions ==> r.db.submissions[s] == t.submissions[s]
    ensures r.db == t.(assignments := r.db.assignments, submissions := r.db.submissions)
  {
    Step(t.(submissions := SubmissionsNotFor(t.submissions, assignmentId),
            assignments := t.assignments - {assignmentId}), true)
  }

  /** Every submit inserts a new row; earlier submissions stay. */
  ghost function SubmitAssignment(t: Tables, assignmentId: int, studentId: int, filePath: Option<string>,
                                  text: Option<string>, submittedAt: string): (r: Step<int>)
    requires Valid(t)
    ensures Valid(r.db)
    ensures r.result !in t.submissions
    ensures r.db.submissions ==
              t.submissions[r.result := Submission(assignmentId, studentId, filePath, text, submittedAt, None, None)]
    ensures r.db == t.(submissions := r.db.submissions, nextId := r.db.nextId)
  {
    var row := Submission(assignmentId, studentId, filePath, text, submittedAt, None, None);
    Step(t.(submissions := t.submissions[t.nextId := row], nextId := t.nextId + 1), t.nextId)
  }

  /** No range check on the grade. */
  ghost function GradeSubmission(t: Tables, submissionId: int, grade: Option<int>, feedback: Option<string>): (r: Step<()>)
    requires Valid(t)
    ensures Valid(r.db)
    ensures submissionId in t.submissions ==>
              r.db.submissions == t.submissions[submissionId :=
                t.submissions[submissionId].(grade := grade, feedback := feedback)]
    ensures r.db == t.(submissions := r.db.submissions) && r.db.submissions.Keys == t.submissions.Keys
  {
    if submissionId in t.submissions then
      var s := t.submissions[submissionId].(grade := grade, feedback := feedback);
      Step(t.(submissions := t.submissions[submissionId := s]), ())
    else Step(t, ())
  }

  // ---------------------------------------------------------------------
  // Quizzes
  // ---------------------------------------------------------------------

  /** The question list is stored as given; answer keys are not checked
      against the choices. */
  ghost function CreateQuiz(t: Tables, lessonId: int, questions: seq<Question>): (r: Step<int>)
    requires Valid(t)
    ensures Valid(r.db)
    ensures r.result !in t.quizzes
    ensures r.db.quizzes == t.quizzes[r.result := Quiz(lessonId, questions)]
    ensures r.db == t.(quizzes := r.db.quizzes, nextId := r.db.nextId)
  {
    Step(t.(quizzes := t.quizzes[t.nextId := Quiz(lessonId, questions)], nextId := t.nextId + 1), t.nextId)
  }

  ghost function EvaluateQuizAttempt(t: Tables, quizId: int, studentId: int, answers: seq<Option<int>>): (r: Step<Outcome<QuizResult>>)
    requires Valid(t)
    ensures Valid(r.db)
    ensures r.result.Raised? <==> quizId !in t.quizzes
    ensures r.result.Raised? ==> r.result.error == ValueError && r.db == t
    ensures r.result.Returned? ==>
              var questions := t.quizzes[quizId].questions;
              var res := r.result.value;
              && res.total == |questions|
              && res.correct == |CorrectPositions(questions, answers)|
              && res.correct <= res.total
              && res.score == Score(res.correct, res.total)
              && 0.0 <= res.score <= 100.0
              && (res.total == 0 ==> res.score == 0.0)
              && t.nextId !in t.attempts
              && r.db.attempts == t.attempts[t.nextId := Attempt(quizId, studentId, answers, res.score)]
              && r.db == t.(attempts := r.db.attempts, nextId := t.nextId + 1)
  {
    if quizId !in t.quizzes then Step(t, Raised(ValueError))
    else
      var questions := t.quizzes[quizId].questions;
      var correct := CountCorrect(questions, answers);
      CountIsCorrectPositions(questions, answers);
      var score := Score(correct, |questions|);
      Step(t.(attempts := t.attempts[t.nextId := Attempt(quizId, studentId, answers, score)],
              nextId := t.nextId + 1), Returned(QuizResult(score, correct, |questions|)))
  }

  // ---------------------------------------------------------------------
  // Resources
  // ---------------------------------------------------------------------

  ghost function CreateResource(t: Tables, kind: string, title: string, content: string, teacherId: int,
                                attachment: Option<string>): (r: Step<int>)
    requires Valid(t)
    ensures Valid(r.db)
    ensures r.result !in t.resources
    ensures r.db.resources == t.resources[r.result := Resource(kind, title, content, teacherId, attachment)]
    ensures r.db == t.(resources := r.db.resources, nextId := r.db.nextId)
  {
    Step(t.(resources := t.resources[t.nextId := Resource(kind, title, content, teacherId, attachment)],
            nextId := t.nextId + 1), t.nextId)
  }

  ghost function DeleteResource(t: Tables, resourceId: int): (r: Step<bool>)
    requires Valid(t)
    ensures Valid(r.db)
    ensures r.result <==> resourceId in t.resources
    ensures r.db == t.(resources := t.resources - {resourceId})
  {
    Step(t.(resources := t.resources - {resourceId}), resourceId in t.resources)
  }

  // ---------------------------------------------------------------------
  // Export
  // ---------------------------------------------------------------------

  /** The submissions the export's join yields: those of the assignment whose
      student still has a user row. */
  function ExportedIds(submissions: map<int, Submission>, users: map<int, User>, assignmentId: int): set<int> {
    set s | s in submissions && submissions[s].assignmentId == assignmentId && submissions[s].studentId in users
  }

  /** One export line: the submission joined with its student's name. */
  function ExportLine(submissions: map<int, Submission>, users: map<int, User>, submissionId: int): string
    requires submissionId in submissions && submissions[submissionId].studentId in users
  {
    var s := submissions[submissionId];
    JoinWith(',', RowFields(submissionId, users[s.studentId].name, s))
  }

  /** The lines for the listed submissions, in the listed order. */
  function LinesFor(submissions: map<int, Submission>, users: map<int, User>, ids: seq<int>): (lines: seq<string>)
    requires forall k :: 0 <= k < |ids| ==> ids[k] in submissions && submissions[ids[k]].studentId in users
    ensures |lines| == |ids|
    ensures forall k :: 0 <= k < |ids| ==> lines[k] == ExportLine(submissions, users, ids[k])
  {
    seq(|ids|, k requires 0 <= k < |ids| => ExportLine(submissions, users, ids[k]))
  }

  /** Appending a row appends its line. */
  lemma LinesForAppend(submissions: map<int, Submission>, users: map<int, User>, ids: seq<int>, id: int)
    requires forall k :: 0 <= k < |ids| ==> ids[k] in submissions && submissions[ids[k]].studentId in users
    requires id in submissions && submissions[id].studentId in users
    ensures LinesFor(submissions, users, ids + [id])
         == LinesFor(submissions, users, ids) + [ExportLine(submissions, users, id)]
  {
    var ids' := ids + [id];
    assert forall k :: 0 <= k < |ids| ==> ids'[k] == ids[k];
  }

  /** The lines for one more listed submission. */
  lemma LinesForPrefix(submissions: map<int, Submission>, users: map<int, User>, ids: seq<int>, i: int)
    requires forall k :: 0 <= k < |ids| ==> ids[k] in submissions && submissions[ids[k]].studentId in users
    requires 0 <= i < |ids|
    ensures LinesFor(submissions, users, ids[..i + 1])
         == LinesFor(submissions, users, ids[..i]) + [ExportLine(submissions, users, ids[i])]
  {
    assert ids[..i + 1] == ids[..i] + [ids[i]];
    LinesForAppend(submissions, users, ids[..i], ids[i]);
  }

  /** The `out` list: the header, then one line per exported submission in
      ascending id order. */
  ghost function ExportLines(t: Tables, assignmentId: int): (lines: seq<string>)
    ensures |lines| == |ExportedIds(t.submissions, t.users, assignmentId)| + 1
    ensures lines[0] == Header
  {
    var ids := SortedIds(ExportedIds(t.submissions, t.users, assignmentId));
    SortedIdsElements(ExportedIds(t.submissions, t.users, assignmentId));
    [Header] + LinesFor(t.submissions, t.users, ids)
  }

  /** `'\n'.join(out)` */
  ghost function ExportText(t: Tables, assignmentId: int): string {
    JoinWith('\n', ExportLines(t, assignmentId))
  }
}
