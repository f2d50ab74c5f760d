/** The text side of the submissions export: field sanitising, number
    rendering, joining with a delimiter and, to state what a reader of the
    file gets back, splitting on one. */
module CsvText {
  import opened Rows

  /** The export's column names, in order. */
  const Columns := ["id", "student_name", "file_path", "text", "submitted_at", "grade", "feedback"]

  /** The export's first line, `id,student_name,file_path,text,submitted_at,grade,feedback`. */
  const Header := JoinWith(',', Columns)

  /** `s.replace(from, to)` for one-character `from` and `to`. */
  function Replace(s: string, from: char, to: char): (r: string)
    ensures |r| == |s|
    ensures forall i :: 0 <= i < |s| ==> r[i] == (if s[i] == from then to else s[i])
  {
    seq(|s|, i requires 0 <= i < |s| => if s[i] == from then to else s[i])
  }

  /** The submission text: `.replace('\n', ' ').replace(',', ';')`. */
  function SanitizeText(s: string): (r: string)
    ensures |r| == |s|
    ensures forall i :: 0 <= i < |s| ==> r[i] == (if s[i] == ',' then ';' else if s[i] == '\n' then ' ' else s[i])
    ensures ',' !in r && '\n' !in r
  {
    var r := Replace(Replace(s, '\n', ' '), ',', ';');
    assert forall i :: 0 <= i < |r| ==> r[i] != ',' && r[i] != '\n';
    r
  }

  /** The feedback: `.replace(',', ';')` only. */
  function SanitizeFeedback(s: string): (r: string)
    ensures |r| == |s|
    ensures forall i :: 0 <= i < |s| ==> r[i] == (if s[i] == ',' then ';' else s[i])
    ensures ',' !in r
  {
    var r := Replace(s, ',', ';');
    assert forall i :: 0 <= i < |r| ==> r[i] != ',';
    r
  }

  /** Sanitising leaves a clean field as it is, so it is idempotent. */
  lemma SanitizeKeepsClean(s: string)
    ensures ',' !in s && '\n' !in s ==> SanitizeText(s) == s
    ensures ',' !in s ==> SanitizeFeedback(s) == s
    ensures SanitizeText(SanitizeText(s)) == SanitizeText(s)
    ensures SanitizeFeedback(SanitizeFeedback(s)) == SanitizeFeedback(s)
  {
    if ',' !in s && '\n' !in s {
      assert forall i :: 0 <= i < |s| ==> s[i] != ',' && s[i] != '\n';
    }
    if ',' !in s {
      assert forall i :: 0 <= i < |s| ==> s[i] != ',';
    }
    var t := SanitizeText(s);
    assert forall i :: 0 <= i < |t| ==> t[i] != ',' && t[i] != '\n';
    var f := SanitizeFeedback(s);
    assert forall i :: 0 <= i < |f| ==> f[i] != ',';
  }

  /** Substitution instead of quoting loses information: a comma and a
      semicolon come out the same. */
  lemma SanitizeIsLossy()
    ensures SanitizeFeedback("a,b") == SanitizeFeedback("a;b")
    ensures SanitizeText("a\nb") == SanitizeText("a b")
  {
  }

  /** Feedback keeps its line breaks, so one submission can span several
      lines of the file. */
  lemma FeedbackKeepsLineBreaks()
    ensures SanitizeFeedback("good\nwork") == "good\nwork"
  {
    SanitizeKeepsClean("good\nwork");
  }

  function DigitChar(d: int): (c: char)
    requires 0 <= d < 10
    ensures '0' <= c <= '9' && DigitValue(c) == d
  {
    ('0' as int + d) as char
  }

  function DigitValue(c: char): int
    requires '0' <= c <= '9'
  {
    c as int - '0' as int
  }

  predicate AllDigits(s: string) {
    forall i :: 0 <= i < |s| ==> '0' <= s[i] <= '9'
  }

  /** The number a run of decimal digits denotes, read left to right. */
  function DigitsValue(s: string): nat
    requires AllDigits(s)
  {
    if s == [] then 0 else 10 * DigitsValue(s[..|s| - 1]) + DigitValue(s[|s| - 1])
  }

  /** Decimal digits without a leading zero, the way Python prints a
      natural number. */
  predicate IsNatText(s: string) {
    |s| >= 1 && AllDigits(s) && (s[0] == '0' ==> |s| == 1)
  }

  /** Reads an integer written the way Python prints one: an optional minus
      sign before a non-zero number, no leading zeros. */
  function ReadInt(s: string): Option<int> {
    if IsNatText(s) then Some(DigitsValue(s))
    else if |s| >= 2 && s[0] == '-' && s[1] != '0' && IsNatText(s[1..]) then Some(-(DigitsValue(s[1..]) as int))
    else None
  }

  /** `str(n)` for a natural number. */
  function NatText(n: nat): (r: string)
    ensures IsNatText(r) && DigitsValue(r) == n
  {
    if n < 10 then [DigitChar(n)]
    else
      var r := NatText(n / 10) + [DigitChar(n % 10)];
      assert r[..|r| - 1] == NatText(n / 10);
      r
  }

  /** `str(i)` for an integer. */
  function IntText(i: int): (r: string)
    ensures ',' !in r && '\n' !in r
    ensures ReadInt(r) == Some(i)
  {
    var r := if i < 0 then "-" + NatText(-i) else NatText(i);
    assert forall k :: 0 <= k < |r| ==> r[k] != ',' && r[k] != '\n';
    assert i < 0 ==> r[1..] == NatText(-i);
    r
  }

  /** `str(r['grade'] or '')` for a whole-number grade stored as a float:
      ungraded and a grade of 0 are both falsy and print as nothing. */
  function GradeText(grade: Option<int>): (r: string)
    ensures ',' !in r && '\n' !in r
    ensures r == "" <==> grade == None || grade == Some(0)
    ensures grade.Some? && grade.value > 0 ==>
              |r| >= 3 && AllDigits(r[..|r| - 2]) && r[|r| - 2..] == ".0"
    ensures grade.Some? && grade.value != 0 ==>
              |r| >= 3 && r[|r| - 2..] == ".0" && ReadInt(r[..|r| - 2]) == Some(grade.value)
  {
    match grade
    case None => ""
    case Some(g) =>
      if g == 0 then ""
      else
        var r := IntText(g) + ".0";
        assert r[..|r| - 2] == IntText(g);
        r
  }

  /** `sep.join(parts)`. */
  function JoinWith(sep: char, parts: seq<string>): string {
    if |parts| == 0 then ""
    else if |parts| == 1 then parts[0]
    else parts[0] + [sep] + JoinWith(sep, parts[1..])
  }

  /** A character no part contains, other than the delimiter, does not
      occur in the joined text. */
  lemma {:induction false} JoinWithAvoids(sep: char, parts: seq<string>, c: char)
    requires c != sep
    requires forall i :: 0 <= i < |parts| ==> c !in parts[i]
    ensures c !in JoinWith(sep, parts)
  {
    if |parts| > 1 {
      JoinWithAvoids(sep, parts[1..], c);
    }
  }

  /** Every character of every part occurs in the joined text. */
  lemma {:induction false} JoinWithKeeps(sep: char, parts: seq<string>, k: int, c: char)
    requires 0 <= k < |parts| && c in parts[k]
    ensures c in JoinWith(sep, parts)
  {
    if |parts| > 1 {
      if k == 0 {
        assert JoinWith(sep, parts) == parts[0] + ([sep] + JoinWith(sep, parts[1..]));
      } else {
        JoinWithKeeps(sep, parts[1..], k - 1, c);
        assert JoinWith(sep, parts) == (parts[0] + [sep]) + JoinWith(sep, parts[1..]);
      }
    }
  }

  /** `s.split(sep)`: always at least one part, none containing `sep`. */
  function SplitOn(sep: char, s: string): (parts: seq<string>)
    ensures |parts| >= 1
    ensures forall i :: 0 <= i < |parts| ==> sep !in parts[i]
  {
    if s == [] then [""]
    else
      var rest := SplitOn(sep, s[1..]);
      if s[0] == sep then [""] + rest else [[s[0]] + rest[0]] + rest[1..]
  }

  lemma {:induction false} SplitWithoutSep(sep: char, s: string)
    requires sep !in s
    ensures SplitOn(sep, s) == [s]
  {
    if s != [] {
      SplitWithoutSep(sep, s[1..]);
      assert [s[0]] + s[1..] == s;
    }
  }

  lemma {:induction false} SplitAtFirstSep(sep: char, x: string, y: string)
    requires sep !in x
    ensures SplitOn(sep, x + [sep] + y) == [x] + SplitOn(sep, y)
  {
    if x == [] {
      assert x + [sep] + y == [sep] + y;
      assert ([sep] + y)[1..] == y;
    } else {
      assert (x + [sep] + y)[1..] == x[1..] + [sep] + y;
      SplitAtFirstSep(sep, x[1..], y);
      assert [x[0]] + x[1..] == x;
    }
  }

  /** Splitting undoes joining as long as no part contains the delimiter. */
  lemma {:induction false} SplitJoin(sep: char, parts: seq<string>)
    requires |parts| >= 1
    requires forall i :: 0 <= i < |parts| ==> sep !in parts[i]
    ensures SplitOn(sep, JoinWith(sep, parts)) == parts
  {
    if |parts| == 1 {
      SplitWithoutSep(sep, parts[0]);
    } else {
      SplitJoin(sep, parts[1..]);
      SplitAtFirstSep(sep, parts[0], JoinWith(sep, parts[1..]));
      assert [parts[0]] + parts[1..] == parts;
    }
  }

  /** The seven fields of one export line, from the submission id, the
      student's name and the submission row. */
  function RowFields(id: int, studentName: string, s: Submission): (fields: seq<string>)
    ensures |fields| == 7
    ensures ',' !in fields[0] && ',' !in fields[3] && ',' !in fields[5] && ',' !in fields[6]
    ensures ReadInt(fields[0]) == Some(id)
    ensures s.grade.Some? && s.grade.value != 0 ==>
              |fields[5]| >= 3 && ReadInt(fields[5][..|fields[5]| - 2]) == Some(s.grade.value)
  {
    [IntText(id), studentName, s.filePath.GetOr(""), SanitizeText(s.text.GetOr("")),
     s.submittedAt, GradeText(s.grade), SanitizeFeedback(s.feedback.GetOr(""))]
  }

  /** The fields left unsanitised: the name, the file path and the timestamp. */
  predicate RawFieldsCommaFree(studentName: string, s: Submission) {
    ',' !in studentName && ',' !in s.filePath.GetOr("") && ',' !in s.submittedAt
  }

  /** A line reads back as exactly its seven fields, with text and feedback in
      their sanitised form, precisely when the raw fields hold no comma. */
  lemma RowReadsBack(id: int, studentName: string, s: Submission)
    ensures RawFieldsCommaFree(studentName, s)
        <==> SplitOn(',', JoinWith(',', RowFields(id, studentName, s))) == RowFields(id, studentName, s)
  {
    var fields := RowFields(id, studentName, s);
    if RawFieldsCommaFree(studentName, s) {
      SplitJoin(',', fields);
    } else {
      var parts := SplitOn(',', JoinWith(',', fields));
      assert forall i :: 0 <= i < |parts| ==> ',' !in parts[i];
      assert ',' in fields[1] || ',' in fields[2] || ',' in fields[4];
    }
  }

  /** The header splits into its seven column names. */
  lemma HeaderColumns()
    ensures SplitOn(',', Header) == Columns
  {
    assert forall i :: 0 <= i < |Columns| ==> ',' !in Columns[i];
    SplitJoin(',', Columns);
  }

  /** The header is one line. */
  lemma HeaderUnbroken()
    ensures '\n' !in Header
  {
    assert forall i :: 0 <= i < |Columns| ==> '\n' !in Columns[i];
    JoinWithAvoids(',', Columns, '\n');
  }

  /** Joining lines with newlines and splitting again gives the lines back
      when none of them contains a newline. */
  lemma LinesReadBack(lines: seq<string>)
    requires |lines| >= 1
    requires forall i :: 0 <= i < |lines| ==> '\n' !in lines[i]
    ensures SplitOn('\n', JoinWith('\n', lines)) == lines
  {
    SplitJoin('\n', lines);
  }
}
