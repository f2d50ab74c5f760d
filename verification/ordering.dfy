/** Ascending order on row ids: the least element of a set and a set listed
    in ascending order, as SQLite's rowid scans produce them. */
module Ordering {

  lemma {:induction false} MinExists(s: set<int>)
    requires s != {}
    ensures exists m :: m in s && forall x :: x in s ==> m <= x
    decreases |s|
  {
    if forall y :: y !in s {
      assert false;
    }
    var y :| y in s;
    var rest := s - {y};
    if rest == {} {
      assert forall x :: x in s ==> x == y || x in rest;
      assert forall x :: x in s ==> y <= x;
    } else {
      MinExists(rest);
      var m :| m in rest && forall x :: x in rest ==> m <= x;
      MinOfRestAndOne(s, y, m);
    }
  }

  /** The smaller of one element and the least of the others is the least. */
  lemma MinOfRestAndOne(s: set<int>, y: int, m: int)
    requires y in s && m in s - {y} && forall x :: x in s - {y} ==> m <= x
    ensures var least := if y < m then y else m;
            least in s && forall x :: x in s ==> least <= x
  {
    forall x | x in s
      ensures (if y < m then y else m) <= x
    {
      if x != y {
        assert x in s - {y};
      }
    }
  }

  /** The least element of a non-empty set. */
  ghost function MinOf(s: set<int>): (m: int)
    requires s != {}
    ensures m in s && forall x :: x in s ==> m <= x
  {
    MinExists(s);
    var m :| m in s && forall x :: x in s ==> m <= x;
    m
  }

  /** The least element is the only element below all others. */
  lemma MinUnique(s: set<int>, m: int)
    requires m in s && forall x :: x in s ==> m <= x
    ensures m == MinOf(s)
  {
  }

  /** The elements of `s` in ascending order. */
  ghost function SortedIds(s: set<int>): (ids: seq<int>)
    ensures forall i :: 0 <= i < |ids| ==> ids[i] in s
    decreases |s|
  {
    if s == {} then [] else [MinOf(s)] + SortedIds(s - {MinOf(s)})
  }

  /** The listing holds exactly the elements of the set. */
  lemma {:induction false} SortedIdsElements(s: set<int>)
    ensures |SortedIds(s)| == |s|
    ensures forall x :: x in SortedIds(s) <==> x in s
    ensures forall i :: 0 <= i < |SortedIds(s)| ==> SortedIds(s)[i] in s
    decreases |s|
  {
    if s != {} {
      var m := MinOf(s);
      SortedIdsElements(s - {m});
      assert SortedIds(s) == [m] + SortedIds(s - {m});
    }
  }

  /** The listing is strictly ascending, so it names no element twice. */
  lemma {:induction false} SortedIdsAscending(s: set<int>)
    ensures forall i, j :: 0 <= i < j < |SortedIds(s)| ==> SortedIds(s)[i] < SortedIds(s)[j]
    decreases |s|
  {
    if s != {} {
      var m := MinOf(s);
      var rest := SortedIds(s - {m});
      SortedIdsAscending(s - {m});
      SortedIdsElements(s - {m});
      var ids := SortedIds(s);
      assert ids == [m] + rest;
      forall i, j | 0 <= i < j < |ids|
        ensures ids[i] < ids[j]
      {
        assert ids[j] == rest[j - 1] && rest[j - 1] in rest;
        if i > 0 {
          assert ids[i] == rest[i - 1];
        }
      }
    }
  }

  /** Listing `s` in order starts with its least element and continues with
      the rest. */
  lemma SortedIdsUnfold(s: set<int>, m: int)
    requires m in s && forall x :: x in s ==> m <= x
    ensures SortedIds(s) == [m] + SortedIds(s - {m})
  {
    MinUnique(s, m);
  }

  /** Adding an element above all others appends it to the listing. */
  lemma {:induction false} SortedIdsAddMax(s: set<int>, m: int)
    requires forall x :: x in s ==> x < m
    ensures SortedIds(s + {m}) == SortedIds(s) + [m]
    decreases |s|
  {
    if s == {} {
      assert s + {m} == {m};
      SortedIdsUnfold({m}, m);
      assert {m} - {m} == {};
    } else {
      var least := MinOf(s);
      SortedIdsUnfold(s + {m}, least);
      assert (s + {m}) - {least} == (s - {least}) + {m};
      SortedIdsAddMax(s - {least}, m);
    }
  }
}
