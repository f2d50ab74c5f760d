/** What the submissions export contains, what a reader splitting it on
    newlines and commas gets back, and how it changes when a submission
    arrives. */
module Export {
  import opened Rows
  import opened Ordering
  import opened CsvText
  import opened Transitions

  /** The header, then one line per listed submission; each listed
      submission belongs to the assignment and its student exists. */
  lemma ExportShape(t: Tables, assignmentId: int)
    ensures var lines := ExportLines(t, assignmentId);
            var ids := SortedIds(ExportedIds(t.submissions, t.users, assignmentId));
            && |lines| == |ids| + 1
            && lines[0] == Header
            && (forall k :: 0 <= k < |ids| ==>
                  && ids[k] in t.submissions
                  && t.submissions[ids[k]].assignmentId == assignmentId
                  && t.submissions[ids[k]].studentId in t.users
                  && lines[k + 1] == ExportLine(t.submissions, t.users, ids[k]))
  {
    SortedIdsElements(ExportedIds(t.submissions, t.users, assignmentId));
  }

  /** Every submission of the assignment whose student exists is listed,
      in ascending id order. */
  lemma ExportListsAll(t: Tables, assignmentId: int)
    ensures var ids := SortedIds(ExportedIds(t.submissions, t.users, assignmentId));
            && (forall s :: (s in t.submissions && t.submissions[s].assignmentId == assignmentId
                               && t.submissions[s].studentId in t.users) ==> s in ids)
            && (forall i, j :: 0 <= i < j < |ids| ==> ids[i] < ids[j])
  {
    var all := ExportedIds(t.submissions, t.users, assignmentId);
    SortedIdsElements(all);
    SortedIdsAscending(all);
  }

  /** The fields a reader cannot get back intact: a comma or a line break
      in the name, file path or timestamp, or a line break in the feedback. */
  predicate Splittable(name: string, s: Submission) {
    && RawFieldsCommaFree(name, s)
    && '\n' !in name && '\n' !in s.filePath.GetOr("") && '\n' !in s.submittedAt
    && '\n' !in s.feedback.GetOr("")
  }

  lemma LineHasNoBreak(submissions: map<int, Submission>, users: map<int, User>, id: int)
    requires id in submissions && submissions[id].studentId in users
    requires Splittable(users[submissions[id].studentId].name, submissions[id])
    ensures '\n' !in ExportLine(submissions, users, id)
  {
    var s := submissions[id];
    var fields := RowFields(id, users[s.studentId].name, s);
    assert forall i :: 0 <= i < |fields| ==> '\n' !in fields[i];
    JoinWithAvoids(',', fields, '\n');
  }

  /** Every exported row is splittable. */
  ghost predicate ExportSplittable(t: Tables, assignmentId: int) {
    forall s :: s in ExportedIds(t.submissions, t.users, assignmentId) ==>
      Splittable(t.users[t.submissions[s].studentId].name, t.submissions[s])
  }

  /** No line of a splittable export holds a line break. */
  lemma ExportLinesUnbroken(t: Tables, assignmentId: int)
    requires ExportSplittable(t, assignmentId)
    ensures forall i :: 0 <= i < |ExportLines(t, assignmentId)| ==> '\n' !in ExportLines(t, assignmentId)[i]
  {
    var lines := ExportLines(t, assignmentId);
    var ids := SortedIds(ExportedIds(t.submissions, t.users, assignmentId));
    ExportShape(t, assignmentId);
    SortedIdsElements(ExportedIds(t.submissions, t.users, assignmentId));
    forall i | 0 <= i < |lines|
      ensures '\n' !in lines[i]
    {
      if i == 0 {
        HeaderUnbroken();
      } else {
        assert lines[i] == ExportLine(t.submissions, t.users, ids[i - 1]);
        LineHasNoBreak(t.submissions, t.users, ids[i - 1]);
      }
    }
  }

  /** When every exported row is splittable, splitting the text on newlines
      gives the lines back, and splitting each row line on commas gives its
      seven fields, text and feedback in sanitised form. */
  lemma ExportReadsBack(t: Tables, assignmentId: int)
    requires ExportSplittable(t, assignmentId)
    ensures var lines := ExportLines(t, assignmentId);
            var ids := SortedIds(ExportedIds(t.submissions, t.users, assignmentId));
            && SplitOn('\n', ExportText(t, assignmentId)) == lines
            && SplitOn(',', lines[0]) == Columns
            && forall k :: 0 <= k < |ids| ==>
                 && ids[k] in t.submissions && t.submissions[ids[k]].studentId in t.users
                 && var s := t.submissions[ids[k]];
                    SplitOn(',', lines[k + 1]) == RowFields(ids[k], t.users[s.studentId].name, s)
  {
    var lines := ExportLines(t, assignmentId);
    var ids := SortedIds(ExportedIds(t.submissions, t.users, assignmentId));
    ExportLinesUnbroken(t, assignmentId);
    LinesReadBack(lines);
    HeaderColumns();
    ExportShape(t, assignmentId);
    forall k | 0 <= k < |ids|
      ensures && ids[k] in t.submissions && t.submissions[ids[k]].studentId in t.users
              && var s := t.submissions[ids[k]];
                 SplitOn(',', lines[k + 1]) == RowFields(ids[k], t.users[s.studentId].name, s)
    {
      var s := t.submissions[ids[k]];
      RowReadsBack(ids[k], t.users[s.studentId].name, s);
    }
  }

  /** Read back from the file, each row's first field is its submission id,
      and a non-zero grade is the text before its `.0`. */
  lemma ExportNumbersReadBack(t: Tables, assignmentId: int)
    requires ExportSplittable(t, assignmentId)
    ensures var lines := ExportLines(t, assignmentId);
            var ids := SortedIds(ExportedIds(t.submissions, t.users, assignmentId));
            forall k :: 0 <= k < |ids| ==>
              && ids[k] in t.submissions
              && var fields := SplitOn(',', lines[k + 1]);
                 var g := t.submissions[ids[k]].grade;
                 && |fields| == 7
                 && ReadInt(fields[0]) == Some(ids[k])
                 && (g.Some? && g.value != 0 ==>
                       |fields[5]| >= 3 && ReadInt(fields[5][..|fields[5]| - 2]) == Some(g.value))
  {
    ExportReadsBack(t, assignmentId);
  }

  /** A line break in the feedback survives sanitising, so that row's line
      contains a line break and the file has more lines than rows. */
  lemma FeedbackBreaksLine(submissions: map<int, Submission>, users: map<int, User>, id: int)
    requires id in submissions && submissions[id].studentId in users
    requires '\n' in submissions[id].feedback.GetOr("")
    ensures '\n' in ExportLine(submissions, users, id)
  {
    var s := submissions[id];
    var fields := RowFields(id, users[s.studentId].name, s);
    var fb := s.feedback.GetOr("");
    var i :| 0 <= i < |fb| && fb[i] == '\n';
    assert fields[6][i] == '\n';
    JoinWithKeeps(',', fields, 6, '\n');
  }

  /** Inserting a row above every existing id appends its line to the
      export's rows. */
  lemma {:induction false} InsertAppendsLine(submissions: map<int, Submission>, users: map<int, User>,
                                             assignmentId: int, id: int, row: Submission)
    requires forall x :: x in submissions ==> x < id
    requires row.assignmentId == assignmentId && row.studentId in users
    ensures var more := submissions[id := row];
            LinesFor(more, users, SortedIds(ExportedIds(more, users, assignmentId)))
              == LinesFor(submissions, users, SortedIds(ExportedIds(submissions, users, assignmentId)))
                 + [ExportLine(more, users, id)]
  {
    var more := submissions[id := row];
    var before := ExportedIds(submissions, users, assignmentId);
    var ids := SortedIds(before);
    ExportedIdsInsert(submissions, users, assignmentId, id, row);
    SortedIdsAddMax(before, id);
    assert SortedIds(ExportedIds(more, users, assignmentId)) == ids + [id];
    SortedIdsElements(before);
    assert forall k :: 0 <= k < |ids| ==> ids[k] in before;
    LinesForAppend(more, users, ids, id);
    LinesForAgree(submissions, more, users, ids);
  }

  lemma ExportedIdsInsert(submissions: map<int, Submission>, users: map<int, User>,
                          assignmentId: int, id: int, row: Submission)
    requires id !in submissions
    requires row.assignmentId == assignmentId && row.studentId in users
    ensures ExportedIds(submissions[id := row], users, assignmentId)
              == ExportedIds(submissions, users, assignmentId) + {id}
  {
  }

  /** Lines depend only on the rows they list. */
  lemma LinesForAgree(submissions: map<int, Submission>, more: map<int, Submission>, users: map<int, User>, ids: seq<int>)
    requires forall k :: 0 <= k < |ids| ==> ids[k] in submissions && submissions[ids[k]].studentId in users
    requires forall k :: 0 <= k < |ids| ==> ids[k] in more && more[ids[k]] == submissions[ids[k]]
    ensures LinesFor(more, users, ids) == LinesFor(submissions, users, ids)
  {
  }

  /** A submission by an existing student goes to the end of its
      assignment's export: every earlier line stays as it was. */
  lemma SubmitAppendsLine(t: Tables, assignmentId: int, studentId: int, filePath: Option<string>,
                          text: Option<string>, submittedAt: string)
    requires Valid(t) && studentId in t.users
    ensures var r := SubmitAssignment(t, assignmentId, studentId, filePath, text, submittedAt);
            ExportLines(r.db, assignmentId)
              == ExportLines(t, assignmentId) + [ExportLine(r.db.submissions, r.db.users, r.result)]
  {
    var row := Submission(assignmentId, studentId, filePath, text, submittedAt, None, None);
    InsertAppendsLine(t.submissions, t.users, assignmentId, t.nextId, row);
  }
}
