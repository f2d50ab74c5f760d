/** Join codes: the alphabet the generator draws from, the normalisation
    `code.strip().upper()` applied before lookup, and the search over the
    generator's candidates. */
module JoinCodes {
  import opened Rows

  /** Length of a generated code (`_generate_code(n=6)`). */
  const CodeLength := 6

  /** How many candidates course creation draws before giving up. */
  const CodeAttempts := 10

  /** `string.ascii_uppercase + string.digits`. */
  predicate IsCodeChar(c: char) {
    ('A' <= c <= 'Z') || ('0' <= c <= '9')
  }

  predicate IsJoinCode(s: string) {
    |s| == CodeLength && forall i :: 0 <= i < |s| ==> IsCodeChar(s[i])
  }

  /** The characters Python's `str.isspace` accepts, which `strip()` removes. */
  predicate IsSpace(c: char) {
    c == ' ' || ('\t' <= c <= '\r') || ('\U{1c}' <= c <= '\U{1f}')
    || c == '\U{85}' || c == '\U{a0}' || c == '\U{1680}' || ('\U{2000}' <= c <= '\U{200a}')
    || c == '\U{2028}' || c == '\U{2029}' || c == '\U{202f}' || c == '\U{205f}' || c == '\U{3000}'
  }

  function StripLeft(s: string): (r: string)
    ensures |r| <= |s| && r == s[|s| - |r|..]
    ensures r == [] || !IsSpace(r[0])
    ensures forall i :: 0 <= i < |s| - |r| ==> IsSpace(s[i])
  {
    if s == [] || !IsSpace(s[0]) then s else StripLeft(s[1..])
  }

  function StripRight(s: string): (r: string)
    ensures |r| <= |s| && r == s[..|r|]
    ensures r == [] || !IsSpace(r[|r| - 1])
    ensures forall i :: |r| <= i < |s| ==> IsSpace(s[i])
  {
    if s == [] || !IsSpace(s[|s| - 1]) then s else StripRight(s[..|s| - 1])
  }

  /** `str.strip()`: drop leading and trailing white space. */
  function Strip(s: string): string {
    StripRight(StripLeft(s))
  }

  function UpperChar(c: char): (u: char)
    ensures !('a' <= u <= 'z')
  {
    if 'a' <= c <= 'z' then (c as int - 32) as char else c
  }

  /** `str.upper()` on ASCII letters. */
  function Upper(s: string): (r: string)
    ensures |r| == |s| && forall i :: 0 <= i < |s| ==> r[i] == UpperChar(s[i])
  {
    seq(|s|, i requires 0 <= i < |s| => UpperChar(s[i]))
  }

  /** `typed` is `code` with any of its letters in either case. */
  predicate SameUpToCase(typed: string, code: string) {
    |typed| == |code| && forall i :: 0 <= i < |typed| ==> UpperChar(typed[i]) == code[i]
  }

  /** The key `join_class` looks up: `code.strip().upper()`. */
  function Normalize(code: string): (key: string)
    ensures |key| <= |code|
    ensures forall i :: 0 <= i < |key| ==> !('a' <= key[i] <= 'z')
  {
    var key := Upper(Strip(code));
    assert forall i :: 0 <= i < |key| ==> key[i] == UpperChar(Strip(code)[i]);
    key
  }

  /** A join code is already upper case and has no white space, so
      normalisation leaves it alone. */
  lemma NormalizeJoinCode(code: string)
    requires IsJoinCode(code)
    ensures Normalize(code) == code
  {
    assert StripLeft(code) == code;
    assert StripRight(code) == code;
    assert Upper(code) == code;
  }

  /** Whatever case and surrounding white space a student types, a join
      code normalises to itself. */
  lemma NormalizeTypedCode(code: string, before: string, typed: string, after: string)
    requires IsJoinCode(code) && SameUpToCase(typed, code)
    requires forall i :: 0 <= i < |before| ==> IsSpace(before[i])
    requires forall i :: 0 <= i < |after| ==> IsSpace(after[i])
    ensures Normalize(before + typed + after) == code
  {
    TypedCharNotSpace(typed[0], code[0]);
    TypedCharNotSpace(typed[|typed| - 1], code[|code| - 1]);
    StripAround(before, typed, after);
    assert Upper(typed) == code;
  }

  /** A character that upper-cases to a code character is not white space. */
  lemma TypedCharNotSpace(c: char, k: char)
    requires IsCodeChar(k) && UpperChar(c) == k
    ensures !IsSpace(c)
  {
  }

  /** One instance: a code typed in mixed case between spaces. */
  lemma MixedCaseExample()
    ensures Normalize(" aBc12Z ") == "ABC12Z"
  {
    var typed, code := "aBc12Z", "ABC12Z";
    assert IsJoinCode(code) by {
      forall i | 0 <= i < |code|
        ensures IsCodeChar(code[i])
      {
      }
    }
    assert SameUpToCase(typed, code) by {
      forall i | 0 <= i < |typed|
        ensures UpperChar(typed[i]) == code[i]
      {
      }
    }
    var input := " " + typed + " ";
    assert input == " aBc12Z ";
    NormalizeTypedCode(code, " ", typed, " ");
  }

  /** Stripping removes exactly the white space around a text that neither
      starts nor ends with white space. */
  lemma StripAround(before: string, s: string, after: string)
    requires forall i :: 0 <= i < |before| ==> IsSpace(before[i])
    requires forall i :: 0 <= i < |after| ==> IsSpace(after[i])
    requires s != [] && !IsSpace(s[0]) && !IsSpace(s[|s| - 1])
    ensures Strip(before + s + after) == s
  {
    StripLeftAround(before, s, after);
    StripRightSkips(s, after);
  }

  lemma StripLeftAround(before: string, s: string, after: string)
    requires forall i :: 0 <= i < |before| ==> IsSpace(before[i])
    requires s != [] && !IsSpace(s[0])
    ensures StripLeft(before + s + after) == s + after
  {
    var rest := s + after;
    assert rest[0] == s[0];
    StripLeftSkips(before, rest);
    ConcatAssoc(before, s, after);
  }

  lemma ConcatAssoc(a: string, b: string, c: string)
    ensures a + (b + c) == a + b + c
  {
  }

  lemma {:induction false} StripLeftSkips(ws: string, s: string)
    requires forall i :: 0 <= i < |ws| ==> IsSpace(ws[i])
    requires s != [] && !IsSpace(s[0])
    ensures StripLeft(ws + s) == s
  {
    if ws != [] {
      assert (ws + s)[1..] == ws[1..] + s;
      StripLeftSkips(ws[1..], s);
    } else {
      assert ws + s == s;
    }
  }

  lemma {:induction false} StripRightSkips(s: string, ws: string)
    requires forall i :: 0 <= i < |ws| ==> IsSpace(ws[i])
    requires s != [] && !IsSpace(s[|s| - 1])
    ensures StripRight(s + ws) == s
  {
    if ws != [] {
      assert (s + ws)[..|s + ws| - 1] == s + ws[..|ws| - 1];
      StripRightSkips(s, ws[..|ws| - 1]);
    } else {
      assert s + ws == s;
    }
  }

  /** `SELECT id FROM courses WHERE code = ?` finds a row. */
  predicate CodeInUse(courses: map<int, Course>, code: string) {
    exists c :: c in courses && courses[c].code == code
  }

  /** Index of the first candidate no course uses yet; |candidates| when every
      candidate collides. */
  function FirstUnused(candidates: seq<string>, courses: map<int, Course>): (k: nat)
    ensures k <= |candidates|
    ensures forall j :: 0 <= j < k ==> CodeInUse(courses, candidates[j])
    ensures k < |candidates| ==> !CodeInUse(courses, candidates[k])
  {
    if candidates == [] then 0
    else if !CodeInUse(courses, candidates[0]) then 0
    else 1 + FirstUnused(candidates[1..], courses)
  }
}
