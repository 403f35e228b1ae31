/** The column-level part of `load_data`: the seven source columns are renamed
    to semantic names, and the cleaning then reads three of the renamed columns
    by name, which fails when one of them is absent. */
module Schema {
  import opened Wrappers
  import opened Cleaning

  /** Source column identifiers and the names they are renamed to. */
  const Renames: seq<(string, string)> := [
    ("h10_g3", "sex"),
    ("h10_g4", "birth_year"),
    ("h10_g10", "marital_status"),
    ("h10_g11", "religion"),
    ("h10_eco9", "job_code"),
    ("p1002_8aq1", "income"),
    ("h10_reg7", "region_code")
  ]

  /** The renamed columns the cleaning reads, in the order it reads them. */
  const ColumnsRead: seq<string> := ["sex", "income", "birth_year"]

  /** The new name of a column under a rename table; absent names are kept. */
  function RenameWith(table: seq<(string, string)>, c: string): (r: string)
    ensures (forall j :: 0 <= j < |table| ==> table[j].0 != c) ==> r == c
    ensures (exists j :: 0 <= j < |table| && table[j].0 == c) ==> exists j :: 0 <= j < |table| && table[j].0 == c && r == table[j].1
  {
    if |table| == 0 then c
    else if table[0].0 == c then table[0].1
    else RenameWith(table[1..], c)
  }

  function RenameColumn(c: string): string
  {
    RenameWith(Renames, c)
  }

  /** Under a table whose earlier entries rename other columns, an entry's
      source column gets that entry's new name. */
  lemma {:induction false} RenameWithHit(table: seq<(string, string)>, j: int)
    requires 0 <= j < |table|
    requires forall i :: 0 <= i < j ==> table[i].0 != table[j].0
    ensures RenameWith(table, table[j].0) == table[j].1
    decreases j
  {
    if j > 0 {
      RenameWithHit(table[1..], j - 1);
    }
  }

  /** No two entries of the rename table share a source column or a new name,
      so no two source columns merge. */
  lemma RenamesDistinct()
    ensures forall i, j :: 0 <= i < j < |Renames| ==> Renames[i].0 != Renames[j].0
    ensures forall i, j :: 0 <= i < j < |Renames| ==> Renames[i].1 != Renames[j].1
  {
  }

  /** Every source column gets the new name its entry gives. */
  lemma RenameSource(j: int)
    requires 0 <= j < |Renames|
    ensures RenameColumn(Renames[j].0) == Renames[j].1
  {
    RenamesDistinct();
    RenameWithHit(Renames, j);
  }

  /** `rename(columns=...)`: renames the listed columns where present and
      leaves every other column, and the column order, as it was. */
  function RenameHeader(header: seq<string>): (r: seq<string>)
    ensures |r| == |header|
    ensures forall i :: 0 <= i < |header| ==> r[i] == RenameColumn(header[i])
  {
    seq(|header|, i requires 0 <= i < |header| => RenameColumn(header[i]))
  }

  /** A column the cleaning reads was not found. */
  datatype SchemaError = MissingColumn(name: string)

  /** The first column of `needed` missing from `header`, if any. */
  function FirstMissing(needed: seq<string>, header: seq<string>): (r: Option<string>)
    ensures r.None? <==> forall j :: 0 <= j < |needed| ==> needed[j] in header
    ensures r.Some? ==> exists j :: 0 <= j < |needed| && needed[j] == r.value
                          && r.value !in header
                          && forall j' :: 0 <= j' < j ==> needed[j'] in header
  {
    if |needed| == 0 then None
    else if needed[0] !in header then Some(needed[0])
    else
      var rest := FirstMissing(needed[1..], header);
      if rest.Some? then
        var j :| 0 <= j < |needed[1..]| && needed[1..][j] == rest.value && rest.value !in header
                 && forall j' :: 0 <= j' < j ==> needed[1..][j'] in header;
        assert needed[j + 1] == rest.value;
        rest
      else rest
  }

  /** The renamed header, or the error raised by the first column the cleaning
      reads that is not there. */
  function CheckHeader(header: seq<string>): (r: Result<seq<string>, SchemaError>)
    ensures r.Ok? <==> forall j :: 0 <= j < |ColumnsRead| ==> ColumnsRead[j] in RenameHeader(header)
    ensures r.Ok? ==> r.value == RenameHeader(header)
    ensures r.Err? ==> r.error.name in ColumnsRead && r.error.name !in RenameHeader(header)
    ensures r.Err? ==> exists j :: 0 <= j < |ColumnsRead| && ColumnsRead[j] == r.error.name
                          && forall j' :: 0 <= j' < j ==> ColumnsRead[j'] in RenameHeader(header)
  {
    var renamed := RenameHeader(header);
    match FirstMissing(ColumnsRead, renamed)
    case None => Ok(renamed)
    case Some(name) => Err(MissingColumn(name))
  }

  /** The four columns that are only renamed are never read, so a file without
      them loads. */
  lemma PassthroughColumnsOptional()
    ensures CheckHeader([Renames[0].0, Renames[1].0, Renames[5].0]).Ok?
  {
    var r := RenameHeader([Renames[0].0, Renames[1].0, Renames[5].0]);
    RenameSource(0);
    RenameSource(1);
    RenameSource(5);
    assert r[0] == ColumnsRead[0] && r[2] == ColumnsRead[1] && r[1] == ColumnsRead[2];
  }

  /** A file without the sex column fails on it, the first column read. */
  lemma MissingSexColumn()
    ensures CheckHeader([Renames[1].0, Renames[5].0]) == Err(MissingColumn("sex"))
  {
    var r := RenameHeader([Renames[1].0, Renames[5].0]);
    RenameSource(1);
    RenameSource(5);
    assert r == [Renames[1].1, Renames[5].1];
    RenamesDistinct();
    assert "sex" !in r;
  }

  /** `load_data` on a table with the given header: the schema error of a
      missing column, or the cleaned rows. */
  function LoadData(header: seq<string>, raws: seq<RawRow>): (r: Result<seq<Row>, SchemaError>)
    ensures r.Ok? <==> forall j :: 0 <= j < |ColumnsRead| ==> ColumnsRead[j] in RenameHeader(header)
    ensures r.Ok? ==> |r.value| == |raws| && forall i :: 0 <= i < |raws| ==> CleanedFrom(raws[i], r.value[i])
    ensures r.Err? ==> r.error.name in ColumnsRead && r.error.name !in RenameHeader(header)
    ensures r.Err? ==> exists j :: 0 <= j < |ColumnsRead| && ColumnsRead[j] == r.error.name
                          && forall j' :: 0 <= j' < j ==> ColumnsRead[j'] in RenameHeader(header)
  {
    match CheckHeader(header)
    case Ok(_) => Ok(Clean(raws))
    case Err(e) => Err(e)
  }
}
