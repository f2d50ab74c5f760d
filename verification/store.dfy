/** The service layer: one object holding every table, with one method per
    service function. Each method is proved to perform exactly the
    transition its namesake in Transitions describes, so everything proved
    about those transitions holds of the methods. */
module Services {
  import opened Rows
  import opened Ordering
  import opened JoinCodes
  import opened Scoring
  import opened CsvText
  import Transitions

  class Store {
    var users: map<int, User>
    var courses: map<int, Course>
    var members: set<Member>
    var lessons: map<int, Lesson>
    var assignments: map<int, Assignment>
    var submissions: map<int, Submission>
    var quizzes: map<int, Quiz>
    var attempts: map<int, Attempt>
    var deletedUsers: map<int, DeletedUser>
    var deletedCourses: map<int, DeletedCourse>
    var resources: map<int, Resource>
    var nextId: int

    /** The tables as one value. */
    ghost function State(): Tables
      reads this
    {
      Tables(users, courses, members, lessons, assignments, submissions, quizzes, attempts,
             deletedUsers, deletedCourses, resources, nextId)
    }

    ghost predicate Valid()
      reads this
    {
      Rows.Valid(State())
    }

    /** A freshly initialised database: every table empty. */
    constructor ()
      ensures State() == EmptyTables && Valid()
    {
      users, courses, members, lessons := map[], map[], {}, map[];
      assignments, submissions, quizzes, attempts := map[], map[], map[], map[];
      deletedUsers, deletedCourses, resources, nextId := map[], map[], map[], 1;
      EmptyTablesValid();
    }

    // -------------------------------------------------------------------
    // Users
    // -------------------------------------------------------------------

    /** `credential` is the password hash the caller computed. */
    method CreateUser(name: string, email: string, credential: string, role: Role,
                      schoolId: Option<string>, bio: Option<string>) returns (r: Outcome<int>)
      requires Valid()
      modifies this
      ensures Valid()
      ensures var step := Transitions.CreateUser(old(State()), name, email, credential, role, schoolId, bio);
              State() == step.db && r == step.result
    {
      if EmailInUse(users, email) {
        return Raised(IntegrityError);
      }
      users := users[nextId := User(name, email, credential, role, schoolId, bio, true)];
      r := Returned(nextId);
      nextId := nextId + 1;
    }

    method UpdateUserProfile(id: int, name: string, email: string, schoolId: Option<string>,
                             bio: Option<string>) returns (r: Outcome<bool>)
      requires Valid()
      modifies this
      ensures Valid()
      ensures var step := Transitions.UpdateUserProfile(old(State()), id, name, email, schoolId, bio);
              State() == step.db && r == step.result
    {
      if id in users {
        if EmailHeldByOther(users, email, id) {
          return Raised(IntegrityError);
        }
        users := users[id := users[id].(name := name, email := email, schoolId := schoolId, bio := bio)];
      }
      r := Returned(true);
    }

    method SetUserRole(id: int, role: Role)
      requires Valid()
      modifies this
      ensures Valid()
      ensures State() == Transitions.SetUserRole(old(State()), id, role).db
    {
      if id in users {
        users := users[id := users[id].(role := role)];
      }
    }

    method DeleteUser(id: int) returns (r: bool)
      requires Valid()
      modifies this
      ensures Valid()
      ensures var step := Transitions.DeleteUser(old(State()), id); State() == step.db && r == step.result
    {
      if id !in users || !users[id].isActive {
        return false;
      }
      var u := users[id];
      users := users[id := u.(isActive := false)];
      deletedUsers := deletedUsers[nextId := DeletedUser(id, u)];
      nextId := nextId + 1;
      r := true;
    }

    /** Hard delete; the teacher's courses go one at a time. */
    method PurgeUser(id: int) returns (r: bool)
      requires Valid()
      modifies this
      ensures Valid()
      ensures var step := Transitions.PurgeUser(old(State()), id); State() == step.db && r == step.result
    {
      if id !in users {
        return false;
      }
      ghost var t := State();
      DropOwnRows(id);
      ghost var ownRowsGone := State();
      DropCourses(Transitions.TaughtCourses(courses, id));
      users := users - {id};
      r := true;
      assert State() == Transitions.DropCourses(ownRowsGone, Transitions.TaughtCourses(t.courses, id)).(users := t.users - {id});
      assert Transitions.PurgeUser(t, id).db == State();
    }

    /** The first part of the hard delete: the snapshot of the full row, then
        the user's memberships, submissions and attempts. */
    method DropOwnRows(id: int)
      requires id in users
      modifies this
      ensures State() == old(State()).(deletedUsers := old(deletedUsers)[old(nextId) := DeletedUser(id, old(users)[id])],
                                       nextId := old(nextId) + 1,
                                       members := Transitions.MembersNotOf(old(members), id),
                                       submissions := Transitions.SubmissionsNotBy(old(submissions), id),
                                       attempts := Transitions.AttemptsNotBy(old(attempts), id))
    {
      deletedUsers, nextId := deletedUsers[nextId := DeletedUser(id, users[id])], nextId + 1;
      members, submissions, attempts :=
        Transitions.MembersNotOf(members, id), Transitions.SubmissionsNotBy(submissions, id),
        Transitions.AttemptsNotBy(attempts, id);
    }

    /** The per-course loop of the hard delete, in the ascending id order the
        course query returns: each course's memberships, its lessons'
        assignments, its lessons and the course row. */
    method DropCourses(taught: set<int>)
      modifies this
      ensures State() == Transitions.DropCourses(old(State()), taught)
    {
      var pending := taught;
      Transitions.DropNoCourse(State());
      assert taught - pending == {};
      while pending != {}
        invariant pending <= taught
        invariant State() == Transitions.DropCourses(old(State()), taught - pending)
        decreases |pending|
      {
        MinExists(pending);
        var c :| c in pending && forall x :: x in pending ==> c <= x;
        DropCourse(c);
        assert State() == Transitions.DropCourses(old(State()), taught - (pending - {c})) by {
          Transitions.DropOneMore(old(State()), taught - pending, c);
          assert (taught - pending) + {c} == taught - (pending - {c});
        }
        pending := pending - {c};
      }
      assert taught - pending == taught;
    }

    /** One course's deletes: memberships, its lessons' assignments, its
        lessons, the course row. */
    method DropCourse(c: int)
      modifies this
      ensures State() == Transitions.DropCourses(old(State()), {c})
    {
      members := Transitions.MembersOutside(members, {c});
      assignments := Transitions.AssignmentsOutside(assignments, Transitions.LessonsOfCourses(lessons, {c}));
      lessons := Transitions.LessonsOutside(lessons, {c});
      courses := courses - {c};
    }

    /** Restore from a deleted-users record. */
    method RestoreUser(deletedId: int) returns (r: Outcome<bool>)
      requires Valid()
      modifies this
      ensures Valid()
      ensures var step := Transitions.RestoreUser(old(State()), deletedId); State() == step.db && r == step.result
    {
      if deletedId !in deletedUsers {
        return Returned(false);
      }
      var rec := deletedUsers[deletedId];
      var snap := rec.snapshot;
      if EmailHeldByOther(users, snap.email, rec.userId) {
        return Raised(IntegrityError);
      }
      if rec.userId in users {
        var row := users[rec.userId].(isActive := true);
        ghost var target := Transitions.Reactivated(users[rec.userId], snap);
        var cols := Transitions.RestoreColumns;
        assert cols[0..] == cols;
        var k := 0;
        while k < |cols|
          invariant 0 <= k <= |cols|
          invariant Transitions.CopyColumns(row, snap, cols[k..]) == target
        {
          assert cols[k..][1..] == cols[k + 1..];
          row := Transitions.CopyColumn(row, snap, cols[k]);
          k := k + 1;
        }
        users := users[rec.userId := row];
      } else {
        users := users[rec.userId := Transitions.Reinserted(snap)];
      }
      deletedUsers := deletedUsers - {deletedId};
      r := Returned(true);
    }

    method DeleteDeletedRecord(deletedId: int) returns (r: bool)
      requires Valid()
      modifies this
      ensures Valid()
      ensures var step := Transitions.DeleteDeletedRecord(old(State()), deletedId);
              State() == step.db && r == step.result
    {
      r := deletedId in deletedUsers;
      deletedUsers := deletedUsers - {deletedId};
    }

    // -------------------------------------------------------------------
    // Courses and enrolment
    // -------------------------------------------------------------------

    /** `candidates` are the codes the generator would draw, in order. */
    method CreateCourse(title: string, description: string, teacherId: int, code: Option<string>,
                        candidates: seq<string>) returns (r: Outcome<int>)
      requires Valid()
      requires |candidates| == CodeAttempts
      requires forall i :: 0 <= i < |candidates| ==> IsJoinCode(candidates[i])
      modifies this
      ensures Valid()
      ensures var step := Transitions.CreateCourse(old(State()), title, description, teacherId, code, candidates);
              State() == step.db && r == step.result
    {
      var chosen := code;
      if !Transitions.CodeSupplied(code) {
        ghost var k := FirstUnused(candidates, courses);
        var found := false;
        var i := 0;
        while i < CodeAttempts && !found
          invariant 0 <= i <= CodeAttempts
          invariant !found ==> i <= k
          invariant found ==> 0 < i && i - 1 == k && chosen == Some(candidates[k])
        {
          if !CodeInUse(courses, candidates[i]) {
            chosen := Some(candidates[i]);
            found := true;
          }
          i := i + 1;
        }
        if !found {
          return Raised(RuntimeError);
        }
      }
      courses := courses[nextId := Course(title, description, teacherId, chosen.value)];
      r := Returned(nextId);
      nextId := nextId + 1;
    }

    /** Looks the normalised code up, taking the lowest matching id, and
        adds the membership unless it is already there. */
    method JoinClass(studentId: int, code: string) returns (r: Outcome<int>)
      requires Valid()
      modifies this
      ensures Valid()
      ensures var step := Transitions.JoinClass(old(State()), studentId, code); State() == step.db && r == step.result
    {
      var key := Normalize(code);
      if !CodeInUse(courses, key) {
        return Raised(ValueError);
      }
      var matching := Transitions.CoursesWithCode(courses, key);
      MinExists(matching);
      var c :| c in matching && forall x :: x in matching ==> c <= x;
      MinUnique(matching, c);
      assert Transitions.CourseWithCode(courses, key) == Some(c);
      members := members + {Member(c, studentId)};
      r := Returned(c);
    }

    method RemoveMember(courseId: int, studentId: int) returns (r: bool)
      requires Valid()
      modifies this
      ensures Valid()
      ensures var step := Transitions.RemoveMember(old(State()), courseId, studentId);
              State() == step.db && r == step.result
    {
      r := Member(courseId, studentId) in members;
      members := members - {Member(courseId, studentId)};
    }

    method RemoveCourse(courseId: int, teacherId: int) returns (r: bool)
      requires Valid()
      modifies this
      ensures Valid()
      ensures var step := Transitions.RemoveCourse(old(State()), courseId, teacherId);
              State() == step.db && r == step.result
    {
      if courseId !in courses || courses[courseId].teacherId != teacherId {
        return false;
      }
      var c := courses[courseId];
      deletedCourses := deletedCourses[nextId := DeletedCourse(courseId, c.title, teacherId, c)];
      nextId := nextId + 1;
      DropCourse(courseId);
      r := true;
    }

    method DeleteDeletedCourseRecord(recordId: int)
      requires Valid()
      modifies this
      ensures Valid()
      ensures State() == Transitions.DeleteDeletedCourseRecord(old(State()), recordId).db
    {
      deletedCourses := deletedCourses - {recordId};
    }

    method UpdateCourse(courseId: int, title: string, description: string) returns (r: bool)
      requires Valid()
      modifies this
      ensures Valid()
      ensures var step := Transitions.UpdateCourse(old(State()), courseId, title, description);
              State() == step.db && r == step.result
    {
      if courseId in courses {
        courses := courses[courseId := courses[courseId].(title := title, description := description)];
      }
      r := true;
    }

    // -------------------------------------------------------------------
    // Lessons, assignments, submissions
    // -------------------------------------------------------------------

    method CreateLesson(courseId: int, title: string, content: string, attachment: Option<string>)
      returns (r: int)
      requires Valid()
      modifies this
      ensures Valid()
      ensures var step := Transitions.CreateLesson(old(State()), courseId, title, content, attachment);
              State() == step.db && r == step.result
    {
      lessons := lessons[nextId := Lesson(courseId, title, content, attachment)];
      r := nextId;
      nextId := nextId + 1;
    }

    method UpdateLesson(lessonId: int, title: string, content: string) returns (r: bool)
      requires Valid()
      modifies this
      ensures Valid()
      ensures var step := Transitions.UpdateLesson(old(State()), lessonId, title, content);
              State() == step.db && r == step.result
    {
      if lessonId in lessons {
        lessons := lessons[lessonId := lessons[lessonId].(title := title, content := content)];
      }
      r := true;
    }

    method DeleteLesson(lessonId: int) returns (r: bool)
      requires Valid()
      modifies this
      ensures Valid()
      ensures var step := Transitions.DeleteLesson(old(State()), lessonId); State() == step.db && r == step.result
    {
      assignments := Transitions.AssignmentsOutside(assignments, {lessonId});
      lessons := lessons - {lessonId};
      r := true;
    }

    method CreateAssignment(lessonId: int, title: string, description: Option<string>,
                            dueDate: Option<string>) returns (r: int)
      requires Valid()
      modifies this
      ensures Valid()
      ensures var step := Transitions.CreateAssignment(old(State()), lessonId, title, description, dueDate);
              State() == step.db && r == step.result
    {
      assignments := assignments[nextId := Assignment(lessonId, title, description, dueDate)];
      r := nextId;
      nextId := nextId + 1;
    }

    method UpdateAssignment(assignmentId: int, title: string, description: Option<string>,
                            dueDate: Option<string>) returns (r: bool)
      requires Valid()
      modifies this
      ensures Valid()
      ensures var step := Transitions.UpdateAssignment(old(State()), assignmentId, title, description, dueDate);
              State() == step.db && r == step.result
    {
      if assignmentId in assignments {
        assignments := assignments[assignmentId :=
          assignments[assignmentId].(title := title, description := description, dueDate := dueDate)];
      }
      r := true;
    }

    method DeleteAssignment(assignmentId: int) returns (r: bool)
      requires Valid()
      modifies this
      ensures Valid()
      ensures var step := Transitions.DeleteAssignment(old(State()), assignmentId);
              State() == step.db && r == step.result
    {
      submissions := Transitions.SubmissionsNotFor(submissions, assignmentId);
      assignments := assignments - {assignmentId};
      r := true;
    }

    /** `submittedAt` is the timestamp the database would stamp. */
    method SubmitAssignment(assignmentId: int, studentId: int, filePath: Option<string>,
                            text: Option<string>, submittedAt: string) returns (r: int)
      requires Valid()
      modifies this
      ensures Valid()
      ensures var step := Transitions.SubmitAssignment(old(State()), assignmentId, studentId, filePath, text, submittedAt);
              State() == step.db && r == step.result
    {
      submissions := submissions[nextId := Submission(assignmentId, studentId, filePath, text, submittedAt, None, None)];
      r := nextId;
      nextId := nextId + 1;
    }

    method GradeSubmission(submissionId: int, grade: Option<int>, feedback: Option<string>)
      requires Valid()
      modifies this
      ensures Valid()
      ensures State() == Transitions.GradeSubmission(old(State()), submissionId, grade, feedback).db
    {
      if submissionId in submissions {
        submissions := submissions[submissionId := submissions[submissionId].(grade := grade, feedback := feedback)];
      }
    }

    // -------------------------------------------------------------------
    // Quizzes
    // -------------------------------------------------------------------

    method CreateQuiz(lessonId: int, questions: seq<Question>) returns (r: int)
      requires Valid()
      modifies this
      ensures Valid()
      ensures var step := Transitions.CreateQuiz(old(State()), lessonId, questions);
              State() == step.db && r == step.result
    {
      quizzes := quizzes[nextId := Quiz(lessonId, questions)];
      r := nextId;
      nextId := nextId + 1;
    }

    /** Scores the answers position by position and records the attempt. */
    method EvaluateQuizAttempt(quizId: int, studentId: int, answers: seq<Option<int>>)
      returns (r: Outcome<Transitions.QuizResult>)
      requires Valid()
      modifies this
      ensures Valid()
      ensures var step := Transitions.EvaluateQuizAttempt(old(State()), quizId, studentId, answers);
              State() == step.db && r == step.result
    {
      if quizId !in quizzes {
        return Raised(ValueError);
      }
      var questions := quizzes[quizId].questions;
      var correct := 0;
      for i := 0 to |questions|
        invariant correct == CountCorrect(questions[..i], answers)
      {
        assert questions[..i + 1][..i] == questions[..i];
        if i < |answers| && answers[i] == questions[i].answer {
          correct := correct + 1;
        }
      }
      assert questions[..|questions|] == questions;
      var total := |questions|;
      var score := Score(correct, total);
      attempts := attempts[nextId := Attempt(quizId, studentId, answers, score)];
      nextId := nextId + 1;
      r := Returned(Transitions.QuizResult(score, correct, total));
    }

    // -------------------------------------------------------------------
    // Resources
    // -------------------------------------------------------------------

    method CreateResource(kind: string, title: string, content: string, teacherId: int,
                          attachment: Option<string>) returns (r: int)
      requires Valid()
      modifies this
      ensures Valid()
      ensures var step := Transitions.CreateResource(old(State()), kind, title, content, teacherId, attachment);
              State() == step.db && r == step.result
    {
      resources := resources[nextId := Resource(kind, title, content, teacherId, attachment)];
      r := nextId;
      nextId := nextId + 1;
    }

    method DeleteResource(resourceId: int) returns (r: bool)
      requires Valid()
      modifies this
      ensures Valid()
      ensures var step := Transitions.DeleteResource(old(State()), resourceId);
              State() == step.db && r == step.result
    {
      if resourceId !in resources {
        return false;
      }
      resources := resources - {resourceId};
      r := true;
    }

    // -------------------------------------------------------------------
    // Export
    // -------------------------------------------------------------------

    /** The export query: the ids of the assignment's submissions whose
        student has a user row, in ascending order. */
    method ExportedRows(assignmentId: int) returns (rows: seq<int>)
      ensures rows == SortedIds(Transitions.ExportedIds(submissions, users, assignmentId))
    {
      var pending := Transitions.ExportedIds(submissions, users, assignmentId);
      ghost var all := pending;
      rows := [];
      while pending != {}
        invariant rows + SortedIds(pending) == SortedIds(all)
        decreases |pending|
      {
        MinExists(pending);
        var m :| m in pending && forall x :: x in pending ==> m <= x;
        SortedIdsUnfold(pending, m);
        assert rows + SortedIds(pending) == (rows + [m]) + SortedIds(pending - {m});
        rows, pending := rows + [m], pending - {m};
      }
      assert rows + SortedIds(pending) == rows;
    }

    /** One line per listed row, in order. */
    method ExportedLines(rows: seq<int>) returns (lines: seq<string>)
      requires forall k :: 0 <= k < |rows| ==> rows[k] in submissions && submissions[rows[k]].studentId in users
      ensures lines == Transitions.LinesFor(submissions, users, rows)
    {
      lines := [];
      for i := 0 to |rows|
        invariant lines == Transitions.LinesFor(submissions, users, rows[..i])
      {
        Transitions.LinesForPrefix(submissions, users, rows, i);
        lines := lines + [Transitions.ExportLine(submissions, users, rows[i])];
      }
      assert rows[..|rows|] == rows;
    }

    /** The joined rows come out in ascending submission id; each becomes one
        line after the header, and the lines are joined with newlines. */
    method ExportSubmissionsCsv(assignmentId: int) returns (csv: string)
      ensures csv == Transitions.ExportText(State(), assignmentId)
    {
      var rows := ExportedRows(assignmentId);
      SortedIdsElements(Transitions.ExportedIds(submissions, users, assignmentId));
      var lines := ExportedLines(rows);
      var out := [Header] + lines;
      assert out == Transitions.ExportLines(State(), assignmentId);
      csv := JoinWith('\n', out);
    }
  }
}
