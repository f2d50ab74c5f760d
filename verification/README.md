# E-learning service layer, modelled in Dafny

This project models the service layer of a small e-learning web application
(`services.py`). The layer is a set of operations over one relational store.
The store has these tables: users, courses, class memberships, lessons,
assignments, submissions, quizzes, quiz attempts, deleted-user snapshots,
deleted-course records and teacher resources. The operations are:

- user creation, profile edits and role changes;
- soft delete, hard delete ("purge") with a snapshot, and restore from a snapshot;
- course creation with a generated six-character join code;
- enrolment by join code and removal of a member;
- deletion of courses, lessons and assignments, each with its own explicit delete chain;
- submissions and grading;
- quiz scoring;
- CSV export of one assignment's submissions.

The model has two levels.

- `Transitions` describes each operation as a function from one `Tables`
  value to a `Step`: the new tables and the operation's result. A result is
  a return value, or one of the errors `IntegrityError`, `ValueError` and
  `RuntimeError`. Each of these functions keeps the store invariant `Valid`
  and states what changes and what stays the same.
- `Services.Store` is a class with one field per table. It has one method
  per service function. Each method changes the fields step by step. The
  loops over code candidates, quiz questions, taught courses, restored
  columns and export rows are loops here too; the re-insert branch of
  `restore_user`, whose column loop only assembles one INSERT, is a single
  write of the whole row. Each method is proved to leave exactly the state
  and result its transition describes.

The store invariant `Rows.Valid` says two things:

- e-mail addresses are pairwise distinct;
- every row id lies below the id counter, so new rows get fresh ids.

The remaining modules prove properties that span several calls:

- `Lifecycle`: soft delete, purge and restore;
- `Enrolment`: join codes and memberships;
- `Export`: what the CSV file holds and what a reader splitting it gets back;
- `Quizzes`: scoring of stored quizzes.

Pure helpers live in `JoinCodes` (code alphabet, `strip().upper()`, candidate
search), `Scoring` (the correct-answer count), `CsvText` (sanitising, joining
and splitting) and `Ordering` (ascending listing of row ids).

Where the source's docstrings and its code differ, the model follows the
code:

- A supplied course code is stored as given. It is neither normalised nor
  checked against existing codes (services.py:134-152), although the
  function's documentation speaks of a unique code.
- The export has no `ORDER BY`. It is modelled in ascending submission id,
  the order of SQLite's rowid scan.
- The export joins submissions with users. A submission whose student row is
  gone is not exported.

## Model

| member | source | states |
|---|---|---|
| Rows.ShrinkKeepsValid | services.py:80-89 | removing rows, without touching the id counter or changing any user row, keeps e-mails unique and ids fresh |
| Transitions.CreateUser | services.py:80-89 | raises IntegrityError, with no change, exactly when the e-mail is already in use; otherwise inserts one active row under a fresh id and changes nothing else |
| Services.Store.CreateUser | services.py:80-89 | the store method performs exactly `Transitions.CreateUser` and keeps the invariant |
| Transitions.UpdateUserProfile | services.py:106-116 | raises IntegrityError, with no change, exactly when another user holds the new e-mail; otherwise changes only name, email, school_id and bio of that user; an unknown id changes nothing |
| Services.Store.UpdateUserProfile | services.py:106-116 | performs exactly `Transitions.UpdateUserProfile` |
| Transitions.SetUserRole | services.py:119-123 | changes only the role of that user; the set of user ids and every other table stay the same |
| Services.Store.SetUserRole | services.py:119-123 | performs exactly `Transitions.SetUserRole` |
| Transitions.DeleteUser | services.py:282-320 | returns true exactly for an existing active user; false leaves the store unchanged; true marks the user inactive and appends one snapshot of the prior row under a fresh id |
| Services.Store.DeleteUser | services.py:282-320 | performs exactly `Transitions.DeleteUser` |
| Lifecycle.DeleteUserTwice | services.py:287-295 | a second soft delete returns false and changes nothing |
| Lifecycle.SoftDeleteThenRestore | services.py:446-498 | restoring the record a soft delete wrote gives back the original tables (only the id counter has moved) and returns true |
| Transitions.PurgeUser | services.py:506-550 | returns true exactly when the user exists; false changes nothing; the result keeps the invariant |
| Lifecycle.PurgeUserEffects | services.py:506-550 | a purge appends the full prior row as a snapshot and removes the user's memberships, submissions and attempts. It removes each taught course with its memberships, its lessons and those lessons' assignments, and then the user row. Every surviving course, lesson, assignment, submission and attempt keeps its values; quizzes, resources and deleted_courses are unchanged |
| Services.Store.PurgeUser | services.py:506-550 | performs exactly `Transitions.PurgeUser` |
| Services.Store.DropCourses | services.py:530-540 | the per-course delete loop removes exactly what `Transitions.DropCourses` removes for the whole set of taught courses |
| Transitions.DropCourses | services.py:530-540 | the delete chain for a set of courses shared by course removal and purge: memberships, the lessons' assignments, lessons, course rows; its effects are stated by `DropCoursesEffects` |
| Services.Store.DropCourse | services.py:220-223 | the four deletes of one course (also one pass of the purge loop at services.py:533-540) perform exactly `Transitions.DropCourses` for that one course |
| Services.Store.DropOwnRows | services.py:516-527 | the snapshot insert and the deletes of the user's memberships, submissions and attempts, as one state change |
| Transitions.DropCoursesEffects | services.py:530-540 | after dropping a set of courses: those courses are gone; their memberships and lessons are gone; the assignments of those lessons are gone; every other row is kept unchanged |
| Transitions.DropOneMore | services.py:530-540 | dropping one more course after a set equals dropping the enlarged set, which is what makes the loop's order irrelevant |
| Transitions.DropCoursesShrinks | services.py:530-540 | dropping courses only removes rows |
| Enrolment.PurgeUserKeepsCodesDistinct | services.py:506-550 | a purge never makes two courses share a code |
| Transitions.Reactivated | services.py:460-472 | a user row that still exists is reactivated; name, email and role come from the snapshot; school_id and bio come from it only where it has them; the password hash stays |
| Transitions.CopyColumns | services.py:463-468 | the column loop, one column at a time; it never touches the password hash or the active flag |
| Transitions.CopyAllColumns | services.py:463-468 | the column loop over the five restorable columns yields the row `Reactivated` describes |
| Transitions.RestoreUser | services.py:446-498 | a missing record returns false, with no change. IntegrityError, with no change, happens exactly when another user holds the snapshot's e-mail. On success the record is removed and the user row is reactivated or re-inserted, active; nothing else changes |
| Services.Store.RestoreUser | services.py:446-498 | performs exactly `Transitions.RestoreUser`, building the row with the column loop |
| Lifecycle.PurgeUserAccount | services.py:506-550 | the account-level part of a purge: the user row is gone, its snapshot is stored under the next id, the id counter advances, and no membership or submission of the user survives |
| Lifecycle.PurgeThenRestore | services.py:474-488 | restoring after a purge re-inserts the user under the old id, active, and consumes the record; the purged memberships and submissions do not come back |
| Lifecycle.RestoreAfterEmailReused | services.py:474-498 | after a purge, if a new account takes the e-mail, restore raises IntegrityError and leaves the store alone |
| Transitions.DeleteDeletedRecord | services.py:432-443 | returns true exactly when the snapshot existed; afterwards it is absent; nothing else changes |
| Services.Store.DeleteDeletedRecord | services.py:432-443 | performs exactly `Transitions.DeleteDeletedRecord` |
| JoinCodes.FirstUnused | services.py:139-146 | the index of the first candidate no course uses; every earlier candidate is in use; it equals the number of candidates when all collide |
| Transitions.CreateCourse | services.py:134-152 | with no code supplied, RuntimeError and no change exactly when all 10 candidates collide; otherwise one course is added under a fresh id, carrying the supplied code or the first unused candidate. That candidate is a 6-character A-Z/0-9 code not used before, and generated codes keep codes distinct |
| Services.Store.CreateCourse | services.py:134-152 | the retry loop over candidates performs exactly `Transitions.CreateCourse` |
| JoinCodes.NormalizeTypedCode | services.py:167 | a join code typed with any mix of upper- and lower-case letters and with white space around it normalises back to itself |
| JoinCodes.Normalize | services.py:167 | the lookup key `code.strip().upper()` is no longer than the typed text and holds no lower-case ASCII letter |
| JoinCodes.MixedCaseExample | services.py:167 | `" aBc12Z "` normalises to `"ABC12Z"` |
| JoinCodes.StripAround | services.py:167 | `strip()` removes exactly the white space around a text that neither starts nor ends with white space |
| JoinCodes.NormalizeJoinCode | services.py:167 | normalisation leaves a generated code unchanged |
| Transitions.CourseWithCode | services.py:167-170 | the lookup finds nothing exactly when no course has the code; otherwise it finds the lowest-id course with that code |
| Transitions.JoinClass | services.py:165-180 | ValueError with no change exactly when no course has the normalised code; otherwise it returns the lowest-id course with that code and adds exactly that membership pair |
| Services.Store.JoinClass | services.py:165-180 | performs exactly `Transitions.JoinClass` |
| Enrolment.JoinTwice | services.py:172-178 | joining twice gives the same store and result as joining once |
| Enrolment.JoinThenRemove | services.py:229-236 | joining and then being removed restores the memberships of a non-member |
| Enrolment.CreateThenJoin | services.py:134-180 | a course created with a generated code can be joined with that code, typed in any mix of cases with surrounding white space |
| Enrolment.SuppliedCodeShadowed | services.py:134-180 | a supplied code already held by an older course is stored anyway, and joining with it always reaches the older course |
| Enrolment.LowerCaseSuppliedCodeUnreachable | services.py:134-180 | a supplied code with a lower-case letter can never be joined |
| Transitions.RemoveMember | services.py:229-236 | returns true exactly when the pair was present; afterwards it is absent; every other pair and table is untouched |
| Services.Store.RemoveMember | services.py:229-236 | performs exactly `Transitions.RemoveMember` |
| Transitions.RemoveCourse | services.py:204-226 | false with no change when the course is missing or owned by someone else; otherwise one deleted_courses record is appended with the course's title and teacher, and the course is dropped as `DropCourses` describes; submissions stay |
| Services.Store.RemoveCourse | services.py:204-226 | performs exactly `Transitions.RemoveCourse` |
| Enrolment.RemoveCourseKeepsCodesDistinct | services.py:204-226 | removing a course never makes two courses share a code |
| Transitions.DeleteDeletedCourseRecord | services.py:418-422 | removes that record only |
| Services.Store.DeleteDeletedCourseRecord | services.py:418-422 | performs exactly `Transitions.DeleteDeletedCourseRecord` |
| Transitions.UpdateCourse | services.py:239-244 | returns true; changes only title and description of that course; the course ids stay |
| Services.Store.UpdateCourse | services.py:239-244 | performs exactly `Transitions.UpdateCourse` |
| Enrolment.UpdateCourseKeepsCodesDistinct | services.py:239-244 | editing a course never makes two courses share a code |
| Transitions.CreateLesson | services.py:155-162 | inserts one lesson under a fresh id; nothing else changes |
| Services.Store.CreateLesson | services.py:155-162 | performs exactly `Transitions.CreateLesson` |
| Transitions.UpdateLesson | services.py:247-252 | changes only title and content of that lesson |
| Services.Store.UpdateLesson | services.py:247-252 | performs exactly `Transitions.UpdateLesson` |
| Transitions.DeleteLesson | services.py:263-270 | removes the lesson and exactly the assignments of that lesson; submissions stay |
| Services.Store.DeleteLesson | services.py:263-270 | performs exactly `Transitions.DeleteLesson` |
| Transitions.CreateAssignment | services.py:323-330 | inserts one assignment under a fresh id; nothing else changes |
| Services.Store.CreateAssignment | services.py:323-330 | performs exactly `Transitions.CreateAssignment` |
| Transitions.UpdateAssignment | services.py:255-260 | changes only title, description and due date of that assignment |
| Services.Store.UpdateAssignment | services.py:255-260 | performs exactly `Transitions.UpdateAssignment` |
| Transitions.DeleteAssignment | services.py:273-279 | removes the assignment and exactly its submissions; other submissions are unchanged |
| Services.Store.DeleteAssignment | services.py:273-279 | performs exactly `Transitions.DeleteAssignment` |
| Transitions.SubmitAssignment | services.py:333-340 | inserts one ungraded submission under a fresh id; earlier submissions stay |
| Services.Store.SubmitAssignment | services.py:333-340 | performs exactly `Transitions.SubmitAssignment` |
| Transitions.GradeSubmission | services.py:343-347 | changes only grade and feedback of that submission; no range check |
| Services.Store.GradeSubmission | services.py:343-347 | performs exactly `Transitions.GradeSubmission` |
| Transitions.CreateQuiz | services.py:350-358 | stores the question list as given under a fresh id |
| Services.Store.CreateQuiz | services.py:350-358 | performs exactly `Transitions.CreateQuiz` |
| Scoring.CountCorrect | services.py:370-376 | the count never exceeds the number of questions |
| Scoring.CountIsCorrectPositions | services.py:370-376 | the loop's count equals the number of positions i with i < len(answers) and answers[i] equal to question i's key |
| Scoring.AllCorrect | services.py:370-376 | the count equals the number of questions exactly when every position is answered with its key |
| Scoring.NoAnswersScoresNothing | services.py:370-376 | an empty answer list counts nothing and raises nothing |
| Scoring.TrailingAnswersIgnored | services.py:370-376 | answers past the last question do not change the count |
| Scoring.MissingKeyMatchesMissingAnswer | services.py:372-374 | a question without a key counts as correct when the answer is missing too (`None == None`) |
| Scoring.Score | services.py:377 | the score lies between 0 and 100, is 0 for an empty quiz, and is 100 exactly when every question of a non-empty quiz is correct |
| Scoring.ThreeQuestionExample | services.py:361-382 | answers right, wrong, right on three questions count 2 and score 200/3 |
| Transitions.EvaluateQuizAttempt | services.py:361-382 | ValueError with no change exactly when the quiz is missing; otherwise total is the question count and correct is the number of correct positions (at most total); the score is `Score(correct, total)`, so it is in [0,100], 0 when total is 0 and 100 exactly when every question of a non-empty quiz is correct; exactly one attempt row, carrying that score, is appended |
| Services.Store.EvaluateQuizAttempt | services.py:361-382 | the counting loop performs exactly `Transitions.EvaluateQuizAttempt` |
| Quizzes.FullMarks | services.py:361-382 | submitting every question's key to a non-empty quiz scores 100 with correct = total |
| Quizzes.EmptyQuizScoresZero | services.py:377 | a quiz without questions scores 0 whatever is submitted |
| Quizzes.BlankAttempt | services.py:361-382 | an empty answer sheet is recorded with score 0 and nothing correct |
| Transitions.CreateResource | services.py:553-575 | inserts one resource under a fresh id; nothing else changes |
| Services.Store.CreateResource | services.py:553-575 | performs exactly `Transitions.CreateResource` |
| Transitions.DeleteResource | services.py:588-616 | returns true exactly when the resource existed; only that row is removed |
| Services.Store.DeleteResource | services.py:588-616 | performs exactly `Transitions.DeleteResource` |
| CsvText.SanitizeText | services.py:391 | each comma becomes `;`, each line break a space, every other character stays; so the text holds no comma and no line break |
| CsvText.SanitizeFeedback | services.py:391 | each comma becomes `;` and every other character stays; so the feedback holds no comma |
| CsvText.SanitizeKeepsClean | services.py:391 | sanitising leaves a clean field alone and is idempotent |
| CsvText.SanitizeIsLossy | services.py:391 | a comma and a semicolon, or a line break and a space, come out the same |
| CsvText.FeedbackKeepsLineBreaks | services.py:391 | line breaks in feedback survive sanitising |
| CsvText.NatText | services.py:391 | `str(n)` of a natural number: decimal digits with no leading zero that `DigitsValue`, an independent left-to-right reader, reads back as `n` |
| CsvText.IntText | services.py:391 | `str(r['id'])`: `ReadInt`, which accepts an optional minus sign before a non-zero number without leading zeros, reads the text back as the integer; never holds a comma or line break |
| CsvText.GradeText | services.py:391 | the grade field is empty exactly when the grade is missing or 0; any other grade, negative included, is the integer's text followed by `.0`, and that text reads back as the grade; a positive grade is all digits before `.0`; the field never holds a comma or line break |
| CsvText.RowFields | services.py:391 | the seven fields of one row; the id, text, grade and feedback fields hold no comma; the id field reads back as the submission id and a non-zero grade field, less its `.0`, as the grade |
| CsvText.SplitJoin | services.py:392-393 | splitting on the delimiter undoes joining when no part holds it |
| CsvText.RowReadsBack | services.py:391-392 | a row line splits back into its seven fields exactly when the name, file path and timestamp hold no comma |
| CsvText.HeaderColumns | services.py:389 | the header splits into the seven column names |
| Ordering.SortedIdsElements | services.py:387 | the ascending listing holds each id of the set exactly once |
| Ordering.SortedIdsAscending | services.py:387 | the listing is strictly ascending |
| Services.Store.ExportedRows | services.py:387 | the rows the query yields, listed by the loop in ascending id |
| Services.Store.ExportedLines | services.py:390-392 | the line-building loop yields one export line per listed row, in order |
| Transitions.ExportLine | services.py:391-392 | one row's line: its seven fields joined with commas, the student's name taken from the joined user row |
| Transitions.ExportLines | services.py:389-392 | the `out` list: the header first, then one line per exported submission, so one more line than exported rows |
| Transitions.ExportText | services.py:393 | the lines joined with newlines; what it holds is stated by `Export.ExportShape` and `Export.ExportReadsBack` |
| Services.Store.ExportSubmissionsCsv | services.py:385-393 | the returned text is `Transitions.ExportText` of the current tables |
| Export.ExportShape | services.py:385-393 | the export is the header followed by one line per submission of the assignment whose student exists |
| Export.ExportListsAll | services.py:387 | every such submission is listed, in ascending id order |
| Export.ExportReadsBack | services.py:385-393 | when no raw field holds a comma or line break and no feedback holds a line break, splitting the file on newlines gives the lines, the header gives the column names, and each row gives its seven fields |
| Export.ExportNumbersReadBack | services.py:385-393 | under the same conditions, each row read back from the file has seven fields, its first field reads as its submission id, and a non-zero grade field reads as the grade |
| Export.FeedbackBreaksLine | services.py:391 | a line break in the feedback puts a line break inside that row's line |
| Export.SubmitAppendsLine | services.py:333-340 | a submission by an existing student adds its line at the end of the export and keeps every earlier line |

## Left out

- The HTTP layer (`app.py`): routes, sessions, templates, uploads and downloads. It also holds the checks some routes make before calling the service layer: lower-cased e-mails and the owner-or-admin check before course removal. The role whitelist (app.py:1181) guards only a route that writes the role with its own SQL; the admin edit route (app.py:1148-1156) passes the form's role string to `set_user_role` unchecked.
- The start-up schema migrations and table probing. The model has a fixed schema with `is_active`, `school_id`, `bio`, `code` and every audit table, so every `_table_exists` probe is true.
- `checks.py` and `create_admin.py`. Both are environment and console I/O; `create_admin.py` inserts users without going through `create_user`.
- Password hashing: `create_user` takes the stored hash as a parameter.
- Randomness: `_generate_code` is replaced by a parameter of 10 candidate codes, each 6 characters from A-Z and 0-9.
- Floating point: the score is the exact real `correct*100/total`, without `round(..., 2)`. Grades are whole numbers; fractional grades are not modelled.
- CsvText.GradeText: renders every non-zero whole grade as its integer text (with a minus sign when negative) followed by `.0`. Python's `str(float)` switches to exponent form from 10^16 on (`str(1e16)` is `'1e+16'`), and floats lose integer precision there; that rendering is not modelled.
- JSON encoding of snapshots, question lists and answer lists. The model stores structured values instead.
- SQLite mechanics: connections, WAL, locks, commits and storage faults. Each service call is one atomic step.
- The rollback branches of `delete_user` and `purge_user` are reached in the model's fixed schema only by a storage fault, because that schema is assumed to declare no foreign keys (see below). `restore_user`'s rollback is modelled as the IntegrityError on a taken e-mail, checked before any change.
- `remove_course` wraps its audit insert in try/except. In the fixed schema the insert always succeeds, so the except branch is not modelled.
- Foreign keys: the base schema of the tables is not part of this model. `_get_conn` switches enforcement on (services.py:70), and the model assumes the schema declares no foreign keys, so dangling rows left by the delete chains stay. If, say, `submissions.assignment_id` referenced `assignments(id)`, `delete_lesson` (services.py:266), `remove_course` (services.py:221) and `purge_user` (services.py:537) would raise IntegrityError while rows still refer to the deleted one, and `purge_user` would roll back every step (services.py:547-550). NOT NULL constraints are not modelled either.
- Timestamps set by the database (`deleted_at`, `joined_at`). `submitted_at` is a parameter of `SubmitAssignment`.
- Row ids: one shared counter stands for every table's ids. Only freshness is modelled, not the exact values SQLite would hand out. The model assumes every table, `users` included, is declared AUTOINCREMENT, so an id is never handed out twice; the `users` DDL is not part of this model. Without AUTOINCREMENT SQLite reuses the id of a purged newest user for the next `create_user`, and `restore_user` would then take its existing-row branch (services.py:457-471) and overwrite that new account's name, e-mail, role, school id and bio; `Lifecycle.PurgeThenRestore` does not cover that case.
- Membership row ids: memberships are a set of (course, student) pairs, matching `UNIQUE(course_id, student_id)`.
- `deleted_by` is always empty in the service layer and is not stored.
- Roles are an enumeration of student, teacher and admin. `set_user_role` stores any string its caller passes, and the admin edit route can pass an arbitrary form value, so the model does not capture rows holding other role strings.
- Uniqueness of course codes: the base schema of `courses` is not part of this model; the only DDL in view is the migration that adds `code TEXT` (app.py:226), with no UNIQUE constraint. The model assumes none. Under a UNIQUE constraint a duplicate supplied code would raise IntegrityError in `create_course`, and the shadowing `Enrolment.SuppliedCodeShadowed` shows could not occur.
- `str.upper()` and `str.strip()` are modelled for ASCII letters and Python's white-space set; non-ASCII case mapping is not.
- The removal of a resource's attachment file in `delete_resource`: only the row deletion and the result are modelled.
- Read-only queries: `get_user_by_email`, `get_user_by_id`, `get_teacher_classes`, `get_class_students`, `student_is_member`, `list_deleted_users`, `list_deleted_courses`, `get_deleted_snapshot`, `get_teacher_resources`.
- Order of rows from SELECTs without ORDER BY is taken to be ascending id.
- Transitions.PurgeUser: its own contract states only the result and the unchanged store on failure; the effects are stated by `Lifecycle.PurgeUserEffects`.
