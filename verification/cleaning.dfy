/** Row cleaning performed by `load_data`: sentinel codes become missing values,
    the sex code becomes a category, and age and age group are derived from the
    birth year. Every rule works on one row at a time, so a table is cleaned by
    cleaning each of its rows. */
module Cleaning {
  import opened Wrappers

  /** The survey wave the data set belongs to; ages are counted relative to it. */
  const SurveyYear: int := 2015

  /** Sentinel codes meaning "not reported". */
  const SexUnknownCode: int := 9
  const IncomeUnreported: int := 9999
  const IncomeNone: int := 0
  const BirthYearUnknown: int := 9999

  /** Raw codes of the two sexes. */
  const MaleCode: int := 1
  const FemaleCode: int := 2

  /** Lower bounds of the "middle" and "old" age groups. */
  const MiddleFrom: int := 30
  const OldFrom: int := 60

  datatype Sex = Male | Female

  datatype AgeGroup = Young | Middle | Old

  /** One row of the source table, restricted to the seven renamed columns,
      already under their semantic names. A `None` cell was empty in the
      file. */
  datatype RawRow = RawRow(
    sexCode: Option<int>,
    birthYear: Option<int>,
    maritalStatus: Option<int>,
    religion: Option<int>,
    jobCode: Option<int>,
    income: Option<int>,
    regionCode: Option<int>)

  /** One row of the cleaned table: the seven renamed columns plus the derived
      `age` and `ageGroup`. */
  datatype Row = Row(
    sex: Option<Sex>,
    birthYear: Option<int>,
    maritalStatus: Option<int>,
    religion: Option<int>,
    jobCode: Option<int>,
    income: Option<int>,
    regionCode: Option<int>,
    age: Option<int>,
    ageGroup: Option<AgeGroup>)

  /** Replaces one sentinel code by a missing value and keeps every other cell. */
  function Blank(v: Option<int>, sentinel: int): (r: Option<int>)
    ensures r != Some(sentinel)
    ensures r.Some? ==> r == v
    ensures v != Some(sentinel) ==> r == v
  {
    if v == Some(sentinel) then None else v
  }

  /** Sex cleaning in two steps, as the source does it: code 9 is blanked, then
      the remaining codes are looked up in {1: male, 2: female}; a code absent
      from that table yields a missing value. */
  function CleanSex(code: Option<int>): (s: Option<Sex>)
    ensures s == Some(Male) <==> code == Some(MaleCode)
    ensures s == Some(Female) <==> code == Some(FemaleCode)
    ensures s == None <==> code.None? || (code.value != MaleCode && code.value != FemaleCode)
  {
    match Blank(code, SexUnknownCode)
    case Some(c) =>
      if c == MaleCode then Some(Male)
      else if c == FemaleCode then Some(Female)
      else None
    case None => None
  }

  /** Income cleaning: 9999 and then 0 are blanked. */
  function CleanIncome(v: Option<int>): (r: Option<int>)
    ensures r != Some(IncomeNone) && r != Some(IncomeUnreported)
    ensures r.Some? ==> r == v
    ensures v.Some? && v.value != IncomeNone && v.value != IncomeUnreported ==> r == v
  {
    Blank(Blank(v, IncomeUnreported), IncomeNone)
  }

  /** Birth-year cleaning: 9999 is blanked. */
  function CleanBirthYear(v: Option<int>): (r: Option<int>)
    ensures r != Some(BirthYearUnknown)
    ensures r.Some? ==> r == v
    ensures v.Some? && v.value != BirthYearUnknown ==> r == v
  {
    Blank(v, BirthYearUnknown)
  }

  /** Age in the survey year, counting the birth year as age one (Korean-style). */
  function AgeFromBirthYear(birthYear: int): (r: int)
    ensures r + birthYear == SurveyYear + 1
  {
    SurveyYear - birthYear + 1
  }

  /** The inverse of `AgeFromBirthYear`. */
  function BirthYearFromAge(age: int): int
  {
    SurveyYear + 1 - age
  }

  /** Age and birth year determine each other. */
  lemma AgeBirthYearRoundTrip(birthYear: int, age: int)
    ensures BirthYearFromAge(AgeFromBirthYear(birthYear)) == birthYear
    ensures AgeFromBirthYear(BirthYearFromAge(age)) == age
    ensures AgeFromBirthYear(birthYear) == age <==> BirthYearFromAge(age) == birthYear
  {
  }

  /** An earlier birth year means a strictly greater age. */
  lemma AgeAntitone(b1: int, b2: int)
    requires b1 < b2
    ensures AgeFromBirthYear(b1) > AgeFromBirthYear(b2)
  {
  }

  /** The three-way bucketing of `get_age_group`, tested from the top down. */
  function AgeGroupOf(age: int): (g: AgeGroup)
    ensures g == Old <==> OldFrom <= age
    ensures g == Middle <==> MiddleFrom <= age < OldFrom
    ensures g == Young <==> age < MiddleFrom
  {
    if age >= OldFrom then Old
    else if age >= MiddleFrom then Middle
    else Young
  }

  /** Position of a group in the order young < middle < old. */
  function GroupRank(g: AgeGroup): nat
  {
    match g
    case Young => 0
    case Middle => 1
    case Old => 2
  }

  /** The interval of ages a group stands for, as an independent description:
      young is below 30, middle is 30 to 59, old is 60 and above. */
  predicate InGroup(g: AgeGroup, age: int)
  {
    match g
    case Young => age < MiddleFrom
    case Middle => MiddleFrom <= age && age < OldFrom
    case Old => OldFrom <= age
  }

  /** Every age lies in exactly one group, and that group is the one
      `AgeGroupOf` picks. */
  lemma AgeGroupsPartition(age: int, g: AgeGroup)
    ensures InGroup(g, age) <==> g == AgeGroupOf(age)
  {
  }

  /** Bucketing is monotone: an older person is never in a younger group. */
  lemma AgeGroupMonotone(a1: int, a2: int)
    requires a1 <= a2
    ensures GroupRank(AgeGroupOf(a1)) <= GroupRank(AgeGroupOf(a2))
  {
  }

  /** The derived columns propagate a missing birth year. */
  function DeriveAge(birthYear: Option<int>): Option<int>
  {
    match birthYear
    case Some(b) => Some(AgeFromBirthYear(b))
    case None => None
  }

  function DeriveAgeGroup(age: Option<int>): Option<AgeGroup>
  {
    match age
    case Some(a) => Some(AgeGroupOf(a))
    case None => None
  }

  /** What a correctly cleaned row looks like, column by column, relative to the
      raw row it came from. */
  ghost predicate CleanedFrom(raw: RawRow, r: Row)
  {
    // sex: 1 is male, 2 is female, anything else (9 included) is missing
    && (r.sex == Some(Male) <==> raw.sexCode == Some(MaleCode))
    && (r.sex == Some(Female) <==> raw.sexCode == Some(FemaleCode))
    // income: 0 and 9999 are missing, every other value is kept
    && (raw.income == Some(IncomeNone) || raw.income == Some(IncomeUnreported) ==> r.income == None)
    && (raw.income != Some(IncomeNone) && raw.income != Some(IncomeUnreported) ==> r.income == raw.income)
    // birth year: 9999 is missing, every other value is kept
    && (raw.birthYear == Some(BirthYearUnknown) ==> r.birthYear == None)
    && (raw.birthYear != Some(BirthYearUnknown) ==> r.birthYear == raw.birthYear)
    // age: present exactly with the cleaned birth year, and they add up to 2016
    && (r.age.Some? <==> r.birthYear.Some?)
    && (r.age.Some? ==> r.age.value + r.birthYear.value == SurveyYear + 1)
    // age group: present exactly with the age, and the group containing it
    && (r.ageGroup.Some? <==> r.age.Some?)
    && (r.ageGroup.Some? ==> InGroup(r.ageGroup.value, r.age.value))
    // the remaining columns are only renamed
    && r.maritalStatus == raw.maritalStatus
    && r.religion == raw.religion
    && r.jobCode == raw.jobCode
    && r.regionCode == raw.regionCode
  }

  /** Cleans one row. */
  function CleanRow(raw: RawRow): (r: Row)
    ensures CleanedFrom(raw, r)
  {
    var birthYear := CleanBirthYear(raw.birthYear);
    var age := DeriveAge(birthYear);
    Row(
      sex := CleanSex(raw.sexCode),
      birthYear := birthYear,
      maritalStatus := raw.maritalStatus,
      religion := raw.religion,
      jobCode := raw.jobCode,
      income := CleanIncome(raw.income),
      regionCode := raw.regionCode,
      age := age,
      ageGroup := DeriveAgeGroup(age))
  }

  /** `CleanedFrom` leaves no freedom: a raw row has exactly one clean form. */
  lemma CleanedFromDeterminesRow(raw: RawRow, r1: Row, r2: Row)
    requires CleanedFrom(raw, r1) && CleanedFrom(raw, r2)
    ensures r1 == r2
  {
    assert r1.sex == r2.sex by {
      match r1.sex
      case Some(Male) =>
      case Some(Female) =>
      case None =>
        match r2.sex
        case Some(Male) =>
        case Some(Female) =>
        case None =>
    }
    assert r1.ageGroup == r2.ageGroup by {
      if r1.ageGroup.Some? {
        AgeGroupsPartition(r1.age.value, r1.ageGroup.value);
        AgeGroupsPartition(r2.age.value, r2.ageGroup.value);
      }
    }
  }

  /** Cleans a whole table: same number of rows, same order, each row cleaned. */
  function Clean(raws: seq<RawRow>): (rows: seq<Row>)
    ensures |rows| == |raws|
    ensures forall i :: 0 <= i < |raws| ==> CleanedFrom(raws[i], rows[i])
  {
    seq(|raws|, i requires 0 <= i < |raws| => CleanRow(raws[i]))
  }

  /** Cleaning a concatenation cleans each part: rows never influence each other. */
  lemma CleanDistributes(a: seq<RawRow>, b: seq<RawRow>)
    ensures Clean(a + b) == Clean(a) + Clean(b)
  {
  }

  /** The worked example: sex code 9, born 1980, income 9999 becomes a row with
      no sex, age 36 in the middle group, and no income. */
  lemma CleanExample()
    ensures var r := CleanRow(RawRow(Some(9), Some(1980), Some(1), Some(1), Some(1), Some(9999), Some(1)));
      && r.sex == None && r.age == Some(36) && r.ageGroup == Some(Middle) && r.income == None
  {
  }
}
