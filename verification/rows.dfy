/** Rows of the e-learning store's tables, the store as one value, and the
    constraints the database keeps on it. */
module Rows {

  datatype Option<+T> = None | Some(value: T) {
    /** Python's `x or default` for a nullable column. */
    function GetOr(default: T): T {
      match this
      case Some(v) => v
      case None => default
    }
  }

  /** The exceptions a service function lets escape to its caller:
      sqlite3.IntegrityError, ValueError and RuntimeError. */
  datatype Error = IntegrityError | ValueError | RuntimeError

  /** What a service function that may raise gives back. */
  datatype Outcome<+T> = Returned(value: T) | Raised(error: Error)

  /** The role whitelist the HTTP layer checks before calling in. */
  datatype Role = Student | Teacher | Admin

  /** A row of `users`; `passwordHash` is the opaque credential. */
  datatype User = User(name: string, email: string, passwordHash: string, role: Role,
                       schoolId: Option<string>, bio: Option<string>, isActive: bool)

  /** A row of `courses`; `code` is the join code. */
  datatype Course = Course(title: string, description: string, teacherId: int, code: string)

  /** A row of `class_members`, identified by its (course, student) pair. */
  datatype Member = Member(courseId: int, studentId: int)

  datatype Lesson = Lesson(courseId: int, title: string, content: string, attachment: Option<string>)

  datatype Assignment = Assignment(lessonId: int, title: string, description: Option<string>,
                                   dueDate: Option<string>)

  /** A row of `submissions`; `grade` is a whole-number grade, None until graded. */
  datatype Submission = Submission(assignmentId: int, studentId: int, filePath: Option<string>,
                                   text: Option<string>, submittedAt: string,
                                   grade: Option<int>, feedback: Option<string>)

  /** One quiz question; `answer` is None when the question has no answer key. */
  datatype Question = Question(text: string, choices: seq<string>, answer: Option<int>)

  datatype Quiz = Quiz(lessonId: int, questions: seq<Question>)

  /** A row of `attempts`; None in `answers` is a question left unanswered. */
  datatype Attempt = Attempt(quizId: int, studentId: int, answers: seq<Option<int>>, score: real)

  /** A row of `deleted_users`: the user's id and the full row as it was. */
  datatype DeletedUser = DeletedUser(userId: int, snapshot: User)

  /** A row of `deleted_courses`. */
  datatype DeletedCourse = DeletedCourse(courseId: int, title: string, teacherId: int, snapshot: Course)

  datatype Resource = Resource(kind: string, title: string, content: string, teacherId: int,
                               attachment: Option<string>)

  /** The whole store. Every table is keyed by its row id; `nextId` is the
      id the next inserted row gets. */
  datatype Tables = Tables(
    users: map<int, User>,
    courses: map<int, Course>,
    members: set<Member>,
    lessons: map<int, Lesson>,
    assignments: map<int, Assignment>,
    submissions: map<int, Submission>,
    quizzes: map<int, Quiz>,
    attempts: map<int, Attempt>,
    deletedUsers: map<int, DeletedUser>,
    deletedCourses: map<int, DeletedCourse>,
    resources: map<int, Resource>,
    nextId: int)

  const EmptyTables: Tables :=
    Tables(map[], map[], {}, map[], map[], map[], map[], map[], map[], map[], map[], 1)

  predicate KeysBelow<V>(m: map<int, V>, bound: int) {
    forall k :: k in m ==> k < bound
  }

  /** Some user holds `email`. */
  predicate EmailInUse(users: map<int, User>, email: string) {
    exists k :: k in users && users[k].email == email
  }

  /** Some user other than `self` holds `email`. */
  predicate EmailHeldByOther(users: map<int, User>, email: string, self: int) {
    exists k :: k in users && k != self && users[k].email == email
  }

  /** The UNIQUE constraint on users.email. */
  ghost predicate EmailsUnique(users: map<int, User>) {
    forall a, b :: a in users && b in users && a != b ==> users[a].email != users[b].email
  }

  /** No two courses share a join code. */
  ghost predicate CodesDistinct(courses: map<int, Course>) {
    forall a, b :: a in courses && b in courses && a != b ==> courses[a].code != courses[b].code
  }

  /** Every row id is below the counter, so the counter is always a fresh id;
      the deleted-user records only name ids that were handed out. */
  ghost predicate IdsFresh(t: Tables) {
    && KeysBelow(t.users, t.nextId)
    && KeysBelow(t.courses, t.nextId)
    && KeysBelow(t.lessons, t.nextId)
    && KeysBelow(t.assignments, t.nextId)
    && KeysBelow(t.submissions, t.nextId)
    && KeysBelow(t.quizzes, t.nextId)
    && KeysBelow(t.attempts, t.nextId)
    && KeysBelow(t.deletedUsers, t.nextId)
    && KeysBelow(t.deletedCourses, t.nextId)
    && KeysBelow(t.resources, t.nextId)
    && (forall d :: d in t.deletedUsers ==> t.deletedUsers[d].userId < t.nextId)
  }

  /** What the database guarantees of every state a service call sees. */
  ghost predicate Valid(t: Tables) {
    EmailsUnique(t.users) && IdsFresh(t)
  }

  /** `r` is `t` with rows deleted and nothing inserted or changed. */
  ghost predicate Shrunk(t: Tables, r: Tables) {
    && r.nextId == t.nextId
    && r.users.Keys <= t.users.Keys && (forall u :: u in r.users ==> r.users[u] == t.users[u])
    && r.courses.Keys <= t.courses.Keys
    && r.lessons.Keys <= t.lessons.Keys
    && r.assignments.Keys <= t.assignments.Keys
    && r.submissions.Keys <= t.submissions.Keys
    && r.quizzes.Keys <= t.quizzes.Keys
    && r.attempts.Keys <= t.attempts.Keys
    && r.deletedUsers.Keys <= t.deletedUsers.Keys
    && (forall d :: d in r.deletedUsers ==> r.deletedUsers[d] == t.deletedUsers[d])
    && r.deletedCourses.Keys <= t.deletedCourses.Keys
    && r.resources.Keys <= t.resources.Keys
  }

  /** Deleting rows keeps every constraint. */
  lemma ShrinkKeepsValid(t: Tables, r: Tables)
    requires Valid(t) && Shrunk(t, r)
    ensures Valid(r)
  {
  }

  lemma EmptyTablesValid()
    ensures Valid(EmptyTables)
  {
  }
}
