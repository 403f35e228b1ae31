/** Worked examples of the pipeline, each reduced stage by stage. */
module DashboardExamples {
  import opened Wrappers
  import opened Cleaning
  import opened Filtering
  import opened Grouping
  import opened Dashboard

  /** A cleaned row with the given sex, age and income. */
  function SampleRow(s: Sex, age: int, income: int): Row
  {
    Row(Some(s), Some(BirthYearFromAge(age)), None, None, None, Some(income), None, Some(age), Some(AgeGroupOf(age)))
  }

  /** Two men aged 30 and 40 earning 2000 and 3000, and a woman aged 30 earning 1000. */
  function SampleRows(): seq<Row>
  {
    [SampleRow(Male, 30, 2000), SampleRow(Male, 40, 3000), SampleRow(Female, 30, 1000)]
  }

  /** With both sexes and ages 25 to 45 every sample row passes the filter. */
  lemma SampleFilterWide()
    ensures FilterRows(SampleRows(), {Male, Female}, 25, 45) == SampleRows()
  {
    FilterKeepsPassingTable(SampleRows(), {Male, Female}, 25, 45);
  }

  /** The sample rows are all complete and contribute their (sex, income) pairs. */
  lemma SampleContributions()
    ensures Contributions(SampleRows(), SexColumn) == [Pair(1, 2000), Pair(1, 3000), Pair(0, 1000)]
  {
    var rows := SampleRows();
    assert DropMissing(rows[..1], SexColumn) == rows[..1];
    assert DropMissing(rows[..2], SexColumn) == rows[..2];
    assert DropMissing(rows, SexColumn) == rows;
  }

  /** Grouping the sample pairs: one woman with 1000, two men with 5000 in all. */
  lemma SampleGroups()
    ensures GroupBy([Pair(1, 2000), Pair(1, 3000), Pair(0, 1000)]) == [Group(0, 1000, 1), Group(1, 5000, 2)]
  {
    var ps := [Pair(1, 2000), Pair(1, 3000), Pair(0, 1000)];
    assert GroupBy(ps[..1]) == [Group(1, 2000, 1)];
    assert GroupBy(ps[..2]) == [Group(1, 5000, 2)];
  }

  /** Women earn 1000 on average and men 2500; women come first. */
  lemma SampleBySex()
    ensures IncomeBySex(SampleRows()) == [MeanIncome(Female, 1000.0), MeanIncome(Male, 2500.0)]
  {
    SampleContributions();
    SampleGroups();
    var gs := [Group(0, 1000, 1), Group(1, 5000, 2)];
    assert GroupsOf(SampleRows(), SexColumn) == gs;
    assert Mean(gs[1]) == 2500.0;
    assert MeanTable(gs) == [MeanIncome(0, 1000.0), MeanIncome(1, 2500.0)];
    assert MeanIncomeBy(SampleRows(), SexColumn) == MeanTable(gs);
  }

  /** With ages 35 to 45 only the man aged 40 is left; the women's group is
      absent rather than zero. */
  lemma SampleBySexNarrow()
    ensures IncomeBySex(FilterRows(SampleRows(), {Male, Female}, 35, 45)) == [MeanIncome(Male, 3000.0)]
  {
    var rows := SampleRows();
    var kept := [SampleRow(Male, 40, 3000)];
    assert FilterRows(rows[..1], {Male, Female}, 35, 45) == [];
    assert FilterRows(rows[..2], {Male, Female}, 35, 45) == kept;
    assert FilterRows(rows, {Male, Female}, 35, 45) == kept;
    assert DropMissing(kept, SexColumn) == kept;
    assert Contributions(kept, SexColumn) == [Pair(1, 3000)];
    assert GroupBy([Pair(1, 3000)]) == [Group(1, 3000, 1)];
    assert MeanIncomeBy(kept, SexColumn) == [MeanIncome(1, 3000.0)];
  }

  /** The raw row of `CleanExample` reaches neither chart, although it has an
      age: `dropna` removes it from both groupings for want of an income. */
  lemma UnknownSexRowExcluded()
    ensures var r := CleanRow(RawRow(Some(9), Some(1980), Some(1), Some(1), Some(1), Some(9999), Some(1)));
      !Complete(r, SexColumn) && !Complete(r, AgeColumn)
  {
    CleanExample();
  }
}
