/** The sidebar filter: a row stays when its sex is among the selected ones and
    its age lies in the selected inclusive range. A missing sex or age fails
    every test, as NaN does in `isin` and in comparisons. */
module Filtering {
  import opened Wrappers
  import opened Cleaning

  /** The three masks the source combines with `&`. */
  predicate SexSelected(r: Row, selected: set<Sex>)
  {
    r.sex.Some? && r.sex.value in selected
  }

  predicate AgeAtLeast(r: Row, lo: int)
  {
    r.age.Some? && lo <= r.age.value
  }

  predicate AgeAtMost(r: Row, hi: int)
  {
    r.age.Some? && r.age.value <= hi
  }

  /** The combined mask. A missing sex or age never passes and an empty age
      range admits nothing; among rows with both cells present, exactly the
      rows of a selected sex with an age in lo..hi pass. */
  predicate Keep(r: Row, selected: set<Sex>, lo: int, hi: int)
    ensures Keep(r, selected, lo, hi) ==> r.sex.Some? && r.age.Some? && lo <= hi
    ensures r.sex.Some? && r.age.Some? ==>
      (Keep(r, selected, lo, hi) <==> r.sex.value in selected && lo <= r.age.value <= hi)
  {
    SexSelected(r, selected) && AgeAtLeast(r, lo) && AgeAtMost(r, hi)
  }

  /** `a` is `b` with some elements left out and the rest in their order. */
  predicate IsSubsequence<T(==)>(a: seq<T>, b: seq<T>)
    decreases |b|
  {
    if |b| == 0 then |a| == 0
    else
      || IsSubsequence(a, b[..|b| - 1])
      || (|a| > 0 && a[|a| - 1] == b[|b| - 1] && IsSubsequence(a[..|a| - 1], b[..|b| - 1]))
  }

  /** The filtered table. */
  function FilterRows(rows: seq<Row>, selected: set<Sex>, lo: int, hi: int): (r: seq<Row>)
    decreases |rows|
    ensures IsSubsequence(r, rows)
    ensures forall i :: 0 <= i < |r| ==> Keep(r[i], selected, lo, hi)
  {
    if |rows| == 0 then []
    else
      var init := rows[..|rows| - 1];
      var last := rows[|rows| - 1];
      assert rows == init + [last];
      var kept := FilterRows(init, selected, lo, hi);
      if Keep(last, selected, lo, hi) then
        assert (kept + [last])[..|kept|] == kept;
        kept + [last]
      else kept
  }

  /** Filtering a table with one more row filters that row on its own. */
  lemma FilterStep(rows: seq<Row>, selected: set<Sex>, lo: int, hi: int)
    requires |rows| > 0
    ensures var last := rows[|rows| - 1];
      FilterRows(rows, selected, lo, hi)
        == FilterRows(rows[..|rows| - 1], selected, lo, hi) + (if Keep(last, selected, lo, hi) then [last] else [])
  {
  }

  /** Each row occurs in the result as often as in the input when it passes,
      and not at all when it fails. */
  lemma {:induction false} FilterCounts(rows: seq<Row>, selected: set<Sex>, lo: int, hi: int, x: Row)
    ensures multiset(FilterRows(rows, selected, lo, hi))[x] == if Keep(x, selected, lo, hi) then multiset(rows)[x] else 0
    decreases |rows|
  {
    if |rows| > 0 {
      var init := rows[..|rows| - 1];
      var last := rows[|rows| - 1];
      FilterCounts(init, selected, lo, hi, x);
      FilterStep(rows, selected, lo, hi);
      assert rows == init + [last];
    }
  }

  /** A row is in the result exactly when it is in the input and passes. */
  lemma {:induction false} FilterMembers(rows: seq<Row>, selected: set<Sex>, lo: int, hi: int, x: Row)
    ensures x in FilterRows(rows, selected, lo, hi) <==> x in rows && Keep(x, selected, lo, hi)
  {
    FilterCounts(rows, selected, lo, hi, x);
  }

  /** A table whose every row passes is left as it is. */
  lemma {:induction false} FilterKeepsPassingTable(rows: seq<Row>, selected: set<Sex>, lo: int, hi: int)
    requires forall i :: 0 <= i < |rows| ==> Keep(rows[i], selected, lo, hi)
    ensures FilterRows(rows, selected, lo, hi) == rows
    decreases |rows|
  {
    if |rows| > 0 {
      var init := rows[..|rows| - 1];
      var last := rows[|rows| - 1];
      assert FilterRows(init, selected, lo, hi) == init by {
        forall i | 0 <= i < |init| ensures Keep(init[i], selected, lo, hi) {
          assert init[i] == rows[i];
        }
        FilterKeepsPassingTable(init, selected, lo, hi);
      }
      assert Keep(last, selected, lo, hi);
      FilterStep(rows, selected, lo, hi);
      assert rows == init + [last];
    }
  }

  /** Filtering twice with the same selection is filtering once. */
  lemma {:induction false} FilterIdempotent(rows: seq<Row>, selected: set<Sex>, lo: int, hi: int)
    ensures FilterRows(FilterRows(rows, selected, lo, hi), selected, lo, hi) == FilterRows(rows, selected, lo, hi)
  {
    FilterKeepsPassingTable(FilterRows(rows, selected, lo, hi), selected, lo, hi);
  }

  /** Two filters in a row are one filter with the intersected selection and
      the intersected age range. */
  lemma {:induction false} FilterCompose(rows: seq<Row>, s1: set<Sex>, lo1: int, hi1: int, s2: set<Sex>, lo2: int, hi2: int)
    ensures FilterRows(FilterRows(rows, s1, lo1, hi1), s2, lo2, hi2)
         == FilterRows(rows, s1 * s2, if lo1 < lo2 then lo2 else lo1, if hi1 < hi2 then hi1 else hi2)
    decreases |rows|
  {
    if |rows| > 0 {
      var init := rows[..|rows| - 1];
      var last := rows[|rows| - 1];
      FilterCompose(init, s1, lo1, hi1, s2, lo2, hi2);
      FilterStep(rows, s1, lo1, hi1);
      FilterStep(rows, s1 * s2, if lo1 < lo2 then lo2 else lo1, if hi1 < hi2 then hi1 else hi2);
      var first := FilterRows(init, s1, lo1, hi1);
      if Keep(last, s1, lo1, hi1) {
        var both := first + [last];
        assert both[..|both| - 1] == first;
        FilterStep(both, s2, lo2, hi2);
      }
    }
  }

  /** An empty selection or an empty age range lets nothing through. */
  lemma {:induction false} FilterEmptySelection(rows: seq<Row>, selected: set<Sex>, lo: int, hi: int)
    requires selected == {} || lo > hi
    ensures FilterRows(rows, selected, lo, hi) == []
    decreases |rows|
  {
    if |rows| > 0 {
      FilterEmptySelection(rows[..|rows| - 1], selected, lo, hi);
      FilterStep(rows, selected, lo, hi);
    }
  }
}
