/** The two aggregations the dashboard charts: mean income by sex and mean
    income by age, each computed over the filtered table after dropping the rows
    whose key or income is missing. */
module Dashboard {
  import opened Wrappers
  import opened Cleaning
  import opened Filtering
  import opened Grouping

  /** The column a table is grouped by. */
  datatype GroupColumn = SexColumn | AgeColumn

  /** One line of an output table: a group key and the mean income of its rows. */
  datatype MeanIncome<K> = MeanIncome(key: K, meanIncome: real)

  /** Integer keys for the sex categories, ordered as `groupby` orders the
      labels "female" and "male". */
  function SexKey(s: Sex): (r: int)
    ensures 0 <= r <= 1
    ensures r == 0 <==> s == Female
  {
    match s
    case Female => 0
    case Male => 1
  }

  function SexOfKey(k: int): Sex
  {
    if k == 0 then Female else Male
  }

  lemma SexKeyRoundTrip(s: Sex)
    ensures SexOfKey(SexKey(s)) == s
  {
  }

  /** The grouping key of a row, missing when the row's column is missing. */
  function KeyOf(r: Row, c: GroupColumn): Option<int>
  {
    match c
    case SexColumn => (match r.sex case Some(s) => Some(SexKey(s)) case None => None)
    case AgeColumn => r.age
  }

  /** A row `dropna(subset=[key, 'income'])` keeps. */
  predicate Complete(r: Row, c: GroupColumn)
  {
    KeyOf(r, c).Some? && r.income.Some?
  }

  /** `dropna(subset=[key, 'income'])`. */
  function DropMissing(rows: seq<Row>, c: GroupColumn): (r: seq<Row>)
    decreases |rows|
    ensures IsSubsequence(r, rows)
    ensures forall x :: x in r <==> x in rows && Complete(x, c)
    ensures forall i :: 0 <= i < |r| ==> Complete(r[i], c)
  {
    if |rows| == 0 then []
    else
      var init := rows[..|rows| - 1];
      var last := rows[|rows| - 1];
      assert rows == init + [last];
      var kept := DropMissing(init, c);
      if Complete(last, c) then
        assert (kept + [last])[..|kept|] == kept;
        kept + [last]
      else kept
  }

  /** The (key, income) pairs of complete rows, in row order. */
  function Project(rows: seq<Row>, c: GroupColumn): (ps: seq<Pair>)
    requires forall i :: 0 <= i < |rows| ==> Complete(rows[i], c)
    ensures |ps| == |rows|
    ensures forall i :: 0 <= i < |rows| ==> KeyOf(rows[i], c) == Some(ps[i].key) && rows[i].income == Some(ps[i].value)
  {
    seq(|rows|, i requires 0 <= i < |rows| && Complete(rows[i], c) => Pair(KeyOf(rows[i], c).value, rows[i].income.value))
  }

  /** Each row occurs in the result as often as in the input when it is
      complete, and not at all otherwise. */
  lemma {:induction false} DropMissingCounts(rows: seq<Row>, c: GroupColumn, x: Row)
    ensures multiset(DropMissing(rows, c))[x] == if Complete(x, c) then multiset(rows)[x] else 0
    decreases |rows|
  {
    if |rows| > 0 {
      var init := rows[..|rows| - 1];
      var last := rows[|rows| - 1];
      DropMissingCounts(init, c, x);
      assert rows == init + [last];
    }
  }

  /** Reference count of the rows whose key and income are both present. */
  function CompleteCount(rows: seq<Row>, c: GroupColumn): nat
    decreases |rows|
  {
    if |rows| == 0 then 0
    else CompleteCount(rows[..|rows| - 1], c) + (if Complete(rows[|rows| - 1], c) then 1 else 0)
  }

  /** `dropna` keeps as many rows as there are complete rows. */
  lemma {:induction false} DropMissingLength(rows: seq<Row>, c: GroupColumn)
    ensures |DropMissing(rows, c)| == CompleteCount(rows, c)
    decreases |rows|
  {
    if |rows| > 0 {
      DropMissingLength(rows[..|rows| - 1], c);
    }
  }

  /** The pairs a grouping sees. */
  function Contributions(rows: seq<Row>, c: GroupColumn): seq<Pair>
  {
    Project(DropMissing(rows, c), c)
  }

  /** Reference sums taken straight over the table: the incomes, and the number,
      of the rows whose key is `k` and whose income is present. */
  function IncomeSum(rows: seq<Row>, c: GroupColumn, k: int): int
    decreases |rows|
  {
    if |rows| == 0 then 0
    else
      var last := rows[|rows| - 1];
      IncomeSum(rows[..|rows| - 1], c, k) + (if KeyOf(last, c) == Some(k) && last.income.Some? then last.income.value else 0)
  }

  function IncomeCount(rows: seq<Row>, c: GroupColumn, k: int): nat
    decreases |rows|
  {
    if |rows| == 0 then 0
    else
      var last := rows[|rows| - 1];
      IncomeCount(rows[..|rows| - 1], c, k) + (if KeyOf(last, c) == Some(k) && last.income.Some? then 1 else 0)
  }

  /** The pairs carry exactly the incomes of the table's rows, key by key. */
  lemma {:induction false} ContributionsAgree(rows: seq<Row>, c: GroupColumn, k: int)
    ensures SumFor(Contributions(rows, c), k) == IncomeSum(rows, c, k)
    ensures CountFor(Contributions(rows, c), k) == IncomeCount(rows, c, k)
    decreases |rows|
  {
    if |rows| > 0 {
      var init := rows[..|rows| - 1];
      var last := rows[|rows| - 1];
      ContributionsAgree(init, c, k);
      var kept := DropMissing(init, c);
      if Complete(last, c) {
        var ps := Contributions(rows, c);
        assert ps[..|ps| - 1] == Contributions(init, c);
      }
    }
  }

  /** A pair is contributed exactly when some complete row carries it. */
  lemma ContributionsMembers(rows: seq<Row>, c: GroupColumn, p: Pair)
    ensures p in Contributions(rows, c) <==> exists i :: 0 <= i < |rows| && KeyOf(rows[i], c) == Some(p.key) && rows[i].income == Some(p.value)
  {
    var kept := DropMissing(rows, c);
    var ps := Contributions(rows, c);
    if p in ps {
      var j :| 0 <= j < |ps| && ps[j] == p;
      assert kept[j] in kept;
      var i :| 0 <= i < |rows| && rows[i] == kept[j];
    }
    if exists i :: 0 <= i < |rows| && KeyOf(rows[i], c) == Some(p.key) && rows[i].income == Some(p.value) {
      var i :| 0 <= i < |rows| && KeyOf(rows[i], c) == Some(p.key) && rows[i].income == Some(p.value);
      assert rows[i] in rows;
      var j :| 0 <= j < |kept| && kept[j] == rows[i];
      assert ps[j] == p;
    }
  }

  /** The output table of a group list: each group's key and mean. */
  function MeanTable(gs: seq<Group>): (t: seq<MeanIncome<int>>)
    requires NonEmptyGroups(gs)
    ensures |t| == |gs|
    ensures forall i :: 0 <= i < |t| ==> t[i].key == gs[i].key && t[i].meanIncome == Mean(gs[i])
  {
    seq(|gs|, i requires 0 <= i < |gs| => MeanIncome(gs[i].key, Mean(gs[i])))
  }

  /** The groups of a table, sorted by key. */
  function GroupsOf(rows: seq<Row>, c: GroupColumn): (gs: seq<Group>)
    ensures StrictlyAscending(gs) && NonEmptyGroups(gs)
  {
    GroupBy(Contributions(rows, c))
  }

  /** Each group holds its key's income sum and row count, taken over the table. */
  lemma GroupsOfTotals(rows: seq<Row>, c: GroupColumn)
    ensures var gs := GroupsOf(rows, c);
      forall i :: 0 <= i < |gs| ==> gs[i].total == IncomeSum(rows, c, gs[i].key) && gs[i].count == IncomeCount(rows, c, gs[i].key)
  {
    var gs := GroupsOf(rows, c);
    GroupByGroups(Contributions(rows, c));
    forall i | 0 <= i < |gs|
      ensures gs[i].total == IncomeSum(rows, c, gs[i].key) && gs[i].count == IncomeCount(rows, c, gs[i].key)
    {
      ContributionsAgree(rows, c, gs[i].key);
    }
  }

  /** A key has a group exactly when some row carries it together with an income. */
  lemma GroupsOfKeys(rows: seq<Row>, c: GroupColumn, k: int)
    ensures IncomeCount(rows, c, k) > 0 <==> exists i :: 0 <= i < |GroupsOf(rows, c)| && GroupsOf(rows, c)[i].key == k
  {
    assert GroupsOf(rows, c) == GroupBy(Contributions(rows, c));
    GroupByGroups(Contributions(rows, c));
    ContributionsAgree(rows, c, k);
  }

  /** `groupby(key).agg(mean_income=('income', 'mean'))` after `dropna`. */
  function MeanIncomeBy(rows: seq<Row>, c: GroupColumn): (t: seq<MeanIncome<int>>)
    ensures forall i, j :: 0 <= i < j < |t| ==> t[i].key < t[j].key
    ensures forall i :: 0 <= i < |t| ==>
      && IncomeCount(rows, c, t[i].key) > 0
      && t[i].meanIncome == IncomeSum(rows, c, t[i].key) as real / IncomeCount(rows, c, t[i].key) as real
    ensures forall k :: IncomeCount(rows, c, k) > 0 <==> exists i :: 0 <= i < |t| && t[i].key == k
  {
    var gs := GroupsOf(rows, c);
    GroupsOfTotals(rows, c);
    var t := MeanTable(gs);
    forall k ensures IncomeCount(rows, c, k) > 0 <==> exists i :: 0 <= i < |t| && t[i].key == k {
      GroupsOfKeys(rows, c, k);
    }
    t
  }

  /** Every key of the by-sex table is the key of a sex. */
  lemma SexKeysKnown(rows: seq<Row>)
    ensures var m := MeanIncomeBy(rows, SexColumn);
      forall i :: 0 <= i < |m| ==> SexKey(SexOfKey(m[i].key)) == m[i].key
  {
    var m := MeanIncomeBy(rows, SexColumn);
    forall i | 0 <= i < |m| ensures SexKey(SexOfKey(m[i].key)) == m[i].key {
      KeyedRowExists(rows, SexColumn, m[i].key);
    }
  }

  /** Relabels integer sex keys as sexes. */
  function SexTable(m: seq<MeanIncome<int>>): (t: seq<MeanIncome<Sex>>)
    ensures |t| == |m|
    ensures forall i :: 0 <= i < |t| ==> t[i].key == SexOfKey(m[i].key) && t[i].meanIncome == m[i].meanIncome
  {
    seq(|m|, i requires 0 <= i < |m| => MeanIncome(SexOfKey(m[i].key), m[i].meanIncome))
  }

  /** The by-sex table keeps the order of the integer keys. */
  lemma BySexOrder(rows: seq<Row>, i: int, j: int)
    requires 0 <= i < j < |MeanIncomeBy(rows, SexColumn)|
    ensures SexKey(SexTable(MeanIncomeBy(rows, SexColumn))[i].key) < SexKey(SexTable(MeanIncomeBy(rows, SexColumn))[j].key)
  {
    SexKeysKnown(rows);
  }

  /** The by-sex table keeps the means of the integer-keyed table. */
  lemma BySexMean(rows: seq<Row>, i: int)
    requires 0 <= i < |MeanIncomeBy(rows, SexColumn)|
    ensures var t := SexTable(MeanIncomeBy(rows, SexColumn));
      && IncomeCount(rows, SexColumn, SexKey(t[i].key)) > 0
      && t[i].meanIncome == IncomeSum(rows, SexColumn, SexKey(t[i].key)) as real / IncomeCount(rows, SexColumn, SexKey(t[i].key)) as real
  {
    SexKeysKnown(rows);
  }

  /** A sex has a line in the by-sex table exactly when some row of that sex
      has an income. */
  lemma BySexKeys(rows: seq<Row>, s: Sex)
    ensures var t := SexTable(MeanIncomeBy(rows, SexColumn));
      (exists i :: 0 <= i < |t| && t[i].key == s) <==> IncomeCount(rows, SexColumn, SexKey(s)) > 0
  {
    var m := MeanIncomeBy(rows, SexColumn);
    var t := SexTable(m);
    SexKeysKnown(rows);
    SexKeyRoundTrip(s);
    if IncomeCount(rows, SexColumn, SexKey(s)) > 0 {
      var i :| 0 <= i < |m| && m[i].key == SexKey(s);
      assert t[i].key == s;
    }
    if exists i :: 0 <= i < |t| && t[i].key == s {
      var i :| 0 <= i < |t| && t[i].key == s;
      assert m[i].key == SexKey(s);
    }
  }

  /** The by-sex table in full: ordered, one line per sex with an income, each
      line holding that sex's mean. */
  lemma BySexFacts(rows: seq<Row>)
    ensures var t := SexTable(MeanIncomeBy(rows, SexColumn));
      && (forall i, j :: 0 <= i < j < |t| ==> SexKey(t[i].key) < SexKey(t[j].key))
      && (forall s :: (exists i :: 0 <= i < |t| && t[i].key == s) <==> IncomeCount(rows, SexColumn, SexKey(s)) > 0)
      && (forall i :: 0 <= i < |t| ==>
           && IncomeCount(rows, SexColumn, SexKey(t[i].key)) > 0
           && t[i].meanIncome == IncomeSum(rows, SexColumn, SexKey(t[i].key)) as real / IncomeCount(rows, SexColumn, SexKey(t[i].key)) as real)
  {
    var t := SexTable(MeanIncomeBy(rows, SexColumn));
    forall i, j | 0 <= i < j < |t| ensures SexKey(t[i].key) < SexKey(t[j].key) {
      BySexOrder(rows, i, j);
    }
    forall i | 0 <= i < |t|
      ensures IncomeCount(rows, SexColumn, SexKey(t[i].key)) > 0
      ensures t[i].meanIncome == IncomeSum(rows, SexColumn, SexKey(t[i].key)) as real / IncomeCount(rows, SexColumn, SexKey(t[i].key)) as real
    {
      BySexMean(rows, i);
    }
    forall s ensures (exists i :: 0 <= i < |t| && t[i].key == s) <==> IncomeCount(rows, SexColumn, SexKey(s)) > 0 {
      BySexKeys(rows, s);
    }
  }

  /** Line 88: mean income by sex, female before male. */
  function IncomeBySex(rows: seq<Row>): (t: seq<MeanIncome<Sex>>)
    ensures forall i, j :: 0 <= i < j < |t| ==> SexKey(t[i].key) < SexKey(t[j].key)
    ensures forall s :: (exists i :: 0 <= i < |t| && t[i].key == s) <==> IncomeCount(rows, SexColumn, SexKey(s)) > 0
    ensures forall i :: 0 <= i < |t| ==>
      && IncomeCount(rows, SexColumn, SexKey(t[i].key)) > 0
      && t[i].meanIncome == IncomeSum(rows, SexColumn, SexKey(t[i].key)) as real / IncomeCount(rows, SexColumn, SexKey(t[i].key)) as real
  {
    BySexFacts(rows);
    SexTable(MeanIncomeBy(rows, SexColumn))
  }

  /** Line 99: mean income by age, in ascending age. */
  function IncomeByAge(rows: seq<Row>): (t: seq<MeanIncome<int>>)
    ensures forall i, j :: 0 <= i < j < |t| ==> t[i].key < t[j].key
    ensures forall a :: (exists i :: 0 <= i < |t| && t[i].key == a) <==> IncomeCount(rows, AgeColumn, a) > 0
    ensures forall i :: 0 <= i < |t| ==>
      && IncomeCount(rows, AgeColumn, t[i].key) > 0
      && t[i].meanIncome == IncomeSum(rows, AgeColumn, t[i].key) as real / IncomeCount(rows, AgeColumn, t[i].key) as real
  {
    MeanIncomeBy(rows, AgeColumn)
  }

  /** A key with a positive count is carried by some row with an income. */
  lemma {:induction false} KeyedRowExists(rows: seq<Row>, c: GroupColumn, k: int)
    requires IncomeCount(rows, c, k) > 0
    ensures exists i :: 0 <= i < |rows| && KeyOf(rows[i], c) == Some(k) && rows[i].income.Some?
    decreases |rows|
  {
    var init := rows[..|rows| - 1];
    var last := rows[|rows| - 1];
    if !(KeyOf(last, c) == Some(k) && last.income.Some?) {
      KeyedRowExists(init, c, k);
      var i :| 0 <= i < |init| && KeyOf(init[i], c) == Some(k) && init[i].income.Some?;
      assert rows[i] == init[i];
    }
  }

  /** `dropna` plus grouping loses no complete row and counts none twice: the
      group sizes add up to the number of rows with both the key and the
      income present. */
  lemma GroupCountsAddUp(rows: seq<Row>, c: GroupColumn)
    ensures CountSum(GroupsOf(rows, c)) == CompleteCount(rows, c)
  {
    GroupByCountsAddUp(Contributions(rows, c));
    DropMissingLength(rows, c);
  }

  /** Each mean of an output table lies within any bounds on the incomes of
      its group; in particular between the group's smallest and largest income. */
  lemma MeanIncomeWithinBounds(rows: seq<Row>, c: GroupColumn, i: int, lo: int, hi: int)
    requires 0 <= i < |MeanIncomeBy(rows, c)|
    requires forall j :: 0 <= j < |rows| && KeyOf(rows[j], c) == Some(MeanIncomeBy(rows, c)[i].key) && rows[j].income.Some?
               ==> lo <= rows[j].income.value <= hi
    ensures lo as real <= MeanIncomeBy(rows, c)[i].meanIncome <= hi as real
  {
    var k := MeanIncomeBy(rows, c)[i].key;
    var ps := Contributions(rows, c);
    ContributionsAgree(rows, c, k);
    forall j | 0 <= j < |ps| && ps[j].key == k ensures lo <= ps[j].value <= hi {
      ContributionsMembers(rows, c, ps[j]);
    }
    MeanWithinBounds(ps, k, lo, hi);
  }

  /** Every sex that shows up in the by-sex table of a filtered table was
      selected. */
  lemma FilteredSexSelected(rows: seq<Row>, selected: set<Sex>, lo: int, hi: int)
    ensures forall i :: 0 <= i < |IncomeBySex(FilterRows(rows, selected, lo, hi))|
              ==> IncomeBySex(FilterRows(rows, selected, lo, hi))[i].key in selected
  {
    var kept := FilterRows(rows, selected, lo, hi);
    var t := IncomeBySex(kept);
    forall i | 0 <= i < |t| ensures t[i].key in selected {
      var s := t[i].key;
      KeyedRowExists(kept, SexColumn, SexKey(s));
      var j :| 0 <= j < |kept| && KeyOf(kept[j], SexColumn) == Some(SexKey(s)) && kept[j].income.Some?;
      assert Keep(kept[j], selected, lo, hi);
      SexKeyRoundTrip(s);
      SexKeyRoundTrip(kept[j].sex.value);
    }
  }

  /** Every age that shows up in the by-age table of a filtered table lies in
      the selected range. */
  lemma FilteredAgeInRange(rows: seq<Row>, selected: set<Sex>, lo: int, hi: int)
    ensures forall i :: 0 <= i < |IncomeByAge(FilterRows(rows, selected, lo, hi))|
              ==> lo <= IncomeByAge(FilterRows(rows, selected, lo, hi))[i].key <= hi
  {
    var kept := FilterRows(rows, selected, lo, hi);
    var t := IncomeByAge(kept);
    forall i | 0 <= i < |t| ensures lo <= t[i].key <= hi {
      var a := t[i].key;
      KeyedRowExists(kept, AgeColumn, a);
      var j :| 0 <= j < |kept| && KeyOf(kept[j], AgeColumn) == Some(a) && kept[j].income.Some?;
      assert Keep(kept[j], selected, lo, hi);
    }
  }

  /** Both charts of the dashboard for one sidebar setting: the data are
      cleaned, filtered by the selected sexes and the inclusive age range, and
      aggregated. Every key that shows up passed the filter. */
  function Charts(raws: seq<RawRow>, selected: set<Sex>, lo: int, hi: int): (r: (seq<MeanIncome<Sex>>, seq<MeanIncome<int>>))
    ensures forall i :: 0 <= i < |r.0| ==> r.0[i].key in selected
    ensures forall i :: 0 <= i < |r.1| ==> lo <= r.1[i].key <= hi
  {
    var rows := Clean(raws);
    var kept := FilterRows(rows, selected, lo, hi);
    var bySex := IncomeBySex(kept);
    var byAge := IncomeByAge(kept);
    assert forall i :: 0 <= i < |bySex| ==> bySex[i].key in selected by {
      FilteredSexSelected(rows, selected, lo, hi);
    }
    assert forall i :: 0 <= i < |byAge| ==> lo <= byAge[i].key <= hi by {
      FilteredAgeInRange(rows, selected, lo, hi);
    }
    (bySex, byAge)
  }
}
