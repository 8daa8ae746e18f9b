/** `transform_data`: the raw records become a frame whose columns are
    renamed, whose empty strings become null, whose two count columns are
    coerced to numbers and which carries one load timestamp; the frame is
    then split into the `doctors` table (one row per NPI) and the
    `specialty_and_locations` table (one row per record). */
module Transform {
  import opened Common
  import opened Frames

  /** The label each raw field name gets: its entry in the column renames
      applied to the raw API field names (listed in their source order), or
      the name itself when the renames do not name it. */
  function Renamed(name: string): string
  {
    match name
      case "npi" => "npi"
      case "ind_pac_id" => "individual_pac_id"
      case "ind_enrl_id" => "individual_enrollment_id"
      case "provider_last_name" => "provider_last_name"
      case "provider_first_name" => "provider_first_name"
      case "provider_middle_name" => "provider_middle_name"
      case "suff" => "provider_suffix"
      case "gndr" => "gender"
      case "cred" => "credential"
      case "med_sch" => "medical_school_name"
      case "grd_yr" => "graduation_year"
      case "pri_spec" => "primary_specialty"
      case "sec_spec_1" => "secondary_specialty_1"
      case "sec_spec_2" => "secondary_specialty_2"
      case "sec_spec_3" => "secondary_specialty_3"
      case "sec_spec_4" => "secondary_specialty_4"
      case "sec_spec_all" => "secondary_specialties_all"
      case "telehlth" => "offers_telehealth"
      case "facility_name" => "facility_name"
      case "org_pac_id" => "organization_pac_id"
      case "num_org_mem" => "number_of_group_members"
      case "adr_ln_1" => "address_line_1"
      case "adr_ln_2" => "address_line_2"
      case "ln_2_sprs" => "line2_suppression_flag"
      case "citytown" => "city"
      case "state" => "state"
      case "zip_code" => "zip_code"
      case "telephone_number" => "telephone_number"
      case "ind_assgn" => "individual_accepts_medicare_assignment"
      case "grp_assgn" => "group_accepts_medicare_assignment"
      case "adrs_id" => "address_id"
      case "record_number" => "record_number"
      case "bq_load_dttm" => "bq_load_dttm"
      case _ => name
  }

  const GraduationYear := "graduation_year"
  const GroupMembers := "number_of_group_members"
  const LoadTime := "bq_load_dttm"
  const Npi := "npi"

  /** The columns of the `doctors` table, in order. */
  const DoctorCols: seq<string> := [
    "npi",
    "individual_pac_id",
    "individual_enrollment_id",
    "provider_last_name",
    "provider_first_name",
    "provider_middle_name",
    "provider_suffix",
    "gender",
    "bq_load_dttm"
  ]

  /** The doctor columns both tables keep: the join key and the load time. */
  const SharedCols: seq<string> := [Npi, LoadTime]

  /** The doctor columns removed from `specialty_and_locations`: the
      doctor columns other than the shared ones (`DroppedColsDerived`). */
  const DroppedCols: seq<string> := [
    "individual_pac_id",
    "individual_enrollment_id",
    "provider_last_name",
    "provider_first_name",
    "provider_middle_name",
    "provider_suffix",
    "gender"
  ]

  /** The dropped columns are the doctor columns outside `SharedCols`, as
      the comprehension that computes them in etl.py selects. */
  lemma DroppedColsDerived()
    ensures forall c :: c in DroppedCols <==> c in DoctorCols && c !in SharedCols
  {
  }

  /** The doctor columns are distinct and hold the dropped and the shared
      columns. */
  lemma DoctorColsDistinct()
    ensures Distinct(DoctorCols)
    ensures forall c | c in DroppedCols :: c in DoctorCols
    ensures Npi in DoctorCols && LoadTime in DoctorCols
    ensures Npi !in DroppedCols && LoadTime !in DroppedCols
  {
  }

  /** pandas raises `KeyError` naming the labels a frame does not have. */
  datatype Error = MissingColumns(names: seq<string>)

  // ----------------------------------------------------------------
  // `pd.to_numeric(..., errors="coerce")` on the strings the API sends
  // ----------------------------------------------------------------

  predicate IsDigit(c: char)
  {
    '0' <= c <= '9'
  }

  predicate AllDigits(s: string)
  {
    forall i | 0 <= i < |s| :: IsDigit(s[i])
  }

  /** The value of a string of decimal digits (leading zeros allowed). */
  function DigitsValue(s: string): nat
    requires AllDigits(s)
  {
    if s == [] then 0
    else DigitsValue(s[..|s| - 1]) * 10 + (s[|s| - 1] as int - '0' as int)
  }

  /** An integer numeral: an optional sign followed by at least one digit. */
  predicate IsNumeral(s: string)
  {
    if |s| > 0 && (s[0] == '+' || s[0] == '-') then |s| > 1 && AllDigits(s[1..])
    else |s| > 0 && AllDigits(s)
  }

  /** The number a string denotes, or `None` when it does not parse. */
  function ParseInt(s: string): (r: Option<int>)
    ensures r.Some? <==> IsNumeral(s)
  {
    if |s| > 0 && (s[0] == '+' || s[0] == '-') then
      if |s| > 1 && AllDigits(s[1..]) then
        var n: int := DigitsValue(s[1..]);
        Some(if s[0] == '-' then -n else n)
      else None
    else if |s| > 0 && AllDigits(s) then Some(DigitsValue(s))
    else None
  }

  function DigitChar(d: nat): char
    requires d < 10
  {
    ('0' as int + d) as char
  }

  /** The decimal digits of `n`, without leading zeros. */
  function ShowNat(n: nat): string
  {
    if n < 10 then [DigitChar(n)] else ShowNat(n / 10) + [DigitChar(n % 10)]
  }

  /** The decimal numeral of `n`, with a minus sign when negative. */
  function ShowInt(n: int): string
  {
    if n < 0 then "-" + ShowNat(-n) else ShowNat(n)
  }

  /** The numeral of a natural number is a non-empty digit string whose
      value is that number. */
  lemma {:induction false} ShowNatDigits(n: nat)
    ensures |ShowNat(n)| > 0 && AllDigits(ShowNat(n)) && DigitsValue(ShowNat(n)) == n
  {
    if n >= 10 {
      ShowNatDigits(n / 10);
      var s := ShowNat(n);
      assert s[..|s| - 1] == ShowNat(n / 10);
    }
  }

  /** Every integer's numeral parses back to that integer. */
  lemma ParseShowInt(n: int)
    ensures IsNumeral(ShowInt(n))
    ensures ParseInt(ShowInt(n)) == Some(n)
  {
    if n < 0 {
      ShowNatDigits(-n);
      assert ShowInt(n)[1..] == ShowNat(-n);
    } else {
      ShowNatDigits(n);
    }
  }

  /** Values the API sends for a year: a numeral, an empty string (already
      null by then) and a placeholder text. */
  lemma ParseIntExamples()
    ensures ParseInt("2005") == Some(2005)
    ensures ParseInt("-12") == Some(-12)
    ensures ParseInt("007") == Some(7)
    ensures ParseInt("N/A") == None
    ensures ParseInt("") == None
    ensures ParseInt("-") == None
  {
    assert "2005"[..3] == "200" && "200"[..2] == "20" && "20"[..1] == "2" && "2"[..0] == "";
    assert "-12"[1..] == "12" && "12"[..1] == "1" && "1"[..0] == "";
    assert "007"[..2] == "00" && "00"[..1] == "0" && "0"[..0] == "";
    assert !IsDigit("N/A"[0]);
  }

  /** `to_numeric(errors="coerce")` on one cell: a numeral becomes its
      number, anything else that is not already a number becomes null. */
  function ToNumeric(v: Cell): (w: Cell)
    ensures w.Null? || w.Num?
    ensures v.Str? ==> (w.Num? <==> IsNumeral(v.s))
    ensures v.Str? && IsNumeral(v.s) ==> w == Num(ParseInt(v.s).value)
    ensures v.Null? ==> w.Null?
  {
    match v
    case Null => Null
    case Str(s) => (match ParseInt(s) case Some(n) => Num(n) case None => Null)
    case Num(n) => Num(n)
    case Time(t) => Num(t)
  }

  // ----------------------------------------------------------------
  // The pipeline of `transform_data`
  // ----------------------------------------------------------------

  /** The columns the renamed frame has. */
  ghost function RenamedNames(records: seq<Record>): set<string>
  {
    set n | n in AllNames(records) :: Renamed(n)
  }

  /** No two field names of the raw records are renamed to one label. */
  predicate RenameIsInjective(records: seq<Record>)
  {
    NoRenameClash(Renamed, AllNames(records))
  }

  /** `pd.DataFrame(raw_list).rename(columns=rename_map).replace({"": None})`:
      one row per record, a column per renamed field name, and in each cell
      the record's value for that field with "" turned into null. */
  function Cleaned(records: seq<Record>): (t: Table)
    requires RenameIsInjective(records)
    ensures WellFormed(t) && |t.rows| == |records|
    ensures (set c | c in t.columns) == RenamedNames(records)
    ensures forall i, c | 0 <= i < |t.rows| && c in t.columns :: t.rows[i][c] != Str("")
  {
    var f := Frame(records);
    assert NoRenameClash(Renamed, f.columns);
    assert (set a | a in f.columns :: Renamed(a)) == RenamedNames(records);
    ReplaceEmpty(RenameColumns(f, Renamed))
  }

  /** Row `i` of the cleaned frame holds, under a field's new name, that
      field of record `i` with "" turned into null (null when the record
      lacks the field). */
  lemma CleanedCell(records: seq<Record>, i: nat, name: string)
    requires RenameIsInjective(records) && i < |records| && name in AllNames(records)
    ensures Renamed(name) in Cleaned(records).rows[i]
    ensures Cleaned(records).rows[i][Renamed(name)] == NullIfEmpty(CellOf(Get(records[i], name)))
  {
    var f := Frame(records);
    assert NoRenameClash(Renamed, f.columns);
    var u := RenameColumns(f, Renamed);
    assert u.rows[i][Renamed(name)] == f.rows[i][name];
    assert Renamed(name) in u.columns;
  }

  /** One row after the two `to_numeric` coercions and the timestamp. */
  function Stamped(row: Row, loadTime: int): Row
    requires GraduationYear in row && GroupMembers in row
  {
    row[GraduationYear := ToNumeric(row[GraduationYear])]
       [GroupMembers := ToNumeric(row[GroupMembers])]
       [LoadTime := Time(loadTime)]
  }

  /** The cells of a stamped row: the two count columns coerced, the load
      time set, every other cell as it was. */
  lemma StampedCells(row: Row, loadTime: int)
    requires GraduationYear in row && GroupMembers in row
    ensures Stamped(row, loadTime).Keys == row.Keys + {LoadTime}
    ensures Stamped(row, loadTime)[LoadTime] == Time(loadTime)
    ensures Stamped(row, loadTime)[GraduationYear] == ToNumeric(row[GraduationYear])
    ensures Stamped(row, loadTime)[GroupMembers] == ToNumeric(row[GroupMembers])
    ensures forall c | c in row && c != GraduationYear && c != GroupMembers && c != LoadTime ::
      Stamped(row, loadTime)[c] == row[c]
  {
  }

  /** The two coercions and the timestamp on a whole frame. */
  function StampedTable(t: Table, loadTime: int): (u: Table)
    requires WellFormed(t) && GraduationYear in t.columns && GroupMembers in t.columns
    ensures WellFormed(u) && |u.rows| == |t.rows|
    ensures forall c :: c in u.columns <==> c in t.columns || c == LoadTime
    ensures forall i | 0 <= i < |t.rows| :: u.rows[i] == Stamped(t.rows[i], loadTime)
  {
    var t1 := MapColumn(t, GraduationYear, ToNumeric);
    var t2 := MapColumn(t1, GroupMembers, ToNumeric);
    AssignColumn(t2, LoadTime, Time(loadTime))
  }

  /** `Cleaned` with the two count columns coerced by `to_numeric` and the
      `bq_load_dttm` column set to `loadTime` in every row (appended when
      the records have no such field). Reading a column the frame lacks
      raises `KeyError`, reported for the first column read. */
  function Prepare(records: seq<Record>, loadTime: int): (r: Result<Table, Error>)
    requires RenameIsInjective(records)
    ensures r.Ok? <==> GraduationYear in RenamedNames(records) && GroupMembers in RenamedNames(records)
    ensures GraduationYear !in RenamedNames(records) ==> r == Err(MissingColumns([GraduationYear]))
    ensures GraduationYear in RenamedNames(records) && GroupMembers !in RenamedNames(records) ==>
      r == Err(MissingColumns([GroupMembers]))
    ensures r.Ok? ==> WellFormed(r.value) && |r.value.rows| == |records|
    ensures r.Ok? ==> forall i | 0 <= i < |records| ::
      GraduationYear in Cleaned(records).rows[i] && GroupMembers in Cleaned(records).rows[i] &&
      r.value.rows[i] == Stamped(Cleaned(records).rows[i], loadTime)
  {
    var t := Cleaned(records);
    assert forall c :: c in t.columns <==> c in RenamedNames(records);
    if GraduationYear !in t.columns then Err(MissingColumns([GraduationYear]))
    else if GroupMembers !in t.columns then Err(MissingColumns([GroupMembers]))
    else Ok(StampedTable(t, loadTime))
  }

  /** The prepared frame has a column per renamed field, and the load time. */
  lemma PreparedColumns(records: seq<Record>, loadTime: int)
    requires RenameIsInjective(records) && Prepare(records, loadTime).Ok?
    ensures forall c :: c in Prepare(records, loadTime).value.columns <==> c in RenamedNames(records) || c == LoadTime
  {
    var t := Cleaned(records);
    assert forall c :: c in t.columns <==> c in RenamedNames(records);
  }

  /** The NPI values occurring in a table. */
  ghost function NpiValues(t: Table): set<Cell>
  {
    KeySet(t.rows, ColumnKey(Npi))
  }

  /** `df[doctor_cols].drop_duplicates(subset=["npi"])` and
      `df.drop(columns=<doctor columns but npi and bq_load_dttm>)`. Selecting
      the doctor columns raises `KeyError` naming those the frame lacks;
      the drop then cannot fail, since it drops doctor columns only. */
  function Split(t: Table): (r: Result<(Table, Table), Error>)
    requires WellFormed(t)
    ensures r.Ok? <==> forall c | c in DoctorCols :: c in t.columns
    ensures r.Err? ==> forall c :: c in r.error.names <==> c in DoctorCols && c !in t.columns
    ensures r.Ok? ==> WellFormed(r.value.0) && r.value.0.columns == DoctorCols
    ensures r.Ok? ==> var l := r.value.1;
      && WellFormed(l) && |l.rows| == |t.rows|
      && l.columns == Without(t.columns, DroppedCols)
      && Npi in l.columns && LoadTime in l.columns
      && forall i, c | 0 <= i < |t.rows| && c in l.columns :: l.rows[i][c] == t.rows[i][c]
  {
    var missing := Without(DoctorCols, t.columns);
    DoctorColsDistinct();
    assert missing != [] ==> missing[0] in missing;
    if missing != [] then Err(MissingColumns(missing))
    else Ok((DropDuplicateRows(Select(t, DoctorCols), Npi), DropColumns(t, DroppedCols)))
  }

  /** Unfolds the success branch of `Split` for the `doctors` table, with
      the facts about the doctor columns its selection needs; the proofs of
      `DoctorsAreFirstRows` and `DoctorsInFirstSeenOrder` start from it. */
  lemma DoctorsTable(t: Table)
    requires WellFormed(t) && Split(t).Ok?
    ensures Distinct(DoctorCols) && forall c | c in DoctorCols :: c in t.columns
    ensures Split(t).value.0 == DropDuplicateRows(Select(t, DoctorCols), Npi)
    ensures forall k | 0 <= k < |Split(t).value.0.rows| :: Npi in Split(t).value.0.rows[k]
  {
    DoctorColsDistinct();
  }

  /** A `specialty_and_locations` cell is the frame's cell in the same row
      and column. */
  lemma LocationRow(t: Table, i: nat, c: string)
    requires WellFormed(t) && Split(t).Ok? && i < |t.rows| && c in t.rows[i] && c !in DroppedCols
    ensures var l := Split(t).value.1;
      c in l.columns && i < |l.rows| && c in l.rows[i] && l.rows[i][c] == t.rows[i][c]
  {
    assert c in t.columns;
  }

  /** The first `specialty_and_locations` row with an NPI is the first frame
      row with it. */
  lemma LocationNpis(t: Table, v: Cell)
    requires WellFormed(t) && Split(t).Ok? && v in NpiValues(t)
    ensures v in NpiValues(Split(t).value.1)
    ensures FirstIndex(Split(t).value.1.rows, ColumnKey(Npi), v) == FirstIndex(t.rows, ColumnKey(Npi), v)
  {
    DoctorColsDistinct();
    DropColumnsFirstIndex(t, DroppedCols, Npi, v);
  }

  /** Each `specialty_and_locations` row has the NPI of the frame row it
      comes from. */
  lemma LocationKeys(t: Table)
    requires WellFormed(t) && Split(t).Ok?
    ensures var l := Split(t).value.1;
      && |l.rows| == |t.rows|
      && forall j | 0 <= j < |t.rows| :: ColumnKey(Npi)(l.rows[j]) == ColumnKey(Npi)(t.rows[j])
  {
    DoctorColsDistinct();
    forall j | 0 <= j < |t.rows| ensures ColumnKey(Npi)(Split(t).value.1.rows[j]) == ColumnKey(Npi)(t.rows[j]) {
      LocationRow(t, j, Npi);
    }
  }

  /** The `doctors` table holds each NPI of the frame exactly once. */
  lemma DoctorsOnePerNpi(t: Table)
    requires WellFormed(t) && Split(t).Ok?
    ensures var d := Split(t).value.0;
      && NpiValues(d) == NpiValues(t)
      && forall k, k' | 0 <= k < k' < |d.rows| :: d.rows[k][Npi] != d.rows[k'][Npi]
  {
    DoctorColsDistinct();
    SelectDedupKeys(t, DoctorCols, Npi);
  }

  /** Each `doctors` row is the doctor columns of the first frame row with
      its NPI. */
  lemma DoctorsAreFirstRows(t: Table, k: nat)
    requires WellFormed(t) && Split(t).Ok? && k < |Split(t).value.0.rows|
    ensures var d := Split(t).value.0;
      && d.rows[k][Npi] in NpiValues(t)
      && var i := FirstIndex(t.rows, ColumnKey(Npi), d.rows[k][Npi]);
         forall c | c in DoctorCols :: d.rows[k][c] == t.rows[i][c]
  {
    DoctorsTable(t);
    SelectDedupRow(t, DoctorCols, Npi, k);
  }

  /** The `doctors` rows come in the order in which their NPIs first occur. */
  lemma DoctorsInFirstSeenOrder(t: Table, k: nat, k': nat)
    requires WellFormed(t) && Split(t).Ok? && k < k' < |Split(t).value.0.rows|
    ensures var d := Split(t).value.0;
      && d.rows[k][Npi] in NpiValues(t) && d.rows[k'][Npi] in NpiValues(t)
      && FirstIndex(t.rows, ColumnKey(Npi), d.rows[k][Npi]) < FirstIndex(t.rows, ColumnKey(Npi), d.rows[k'][Npi])
  {
    DoctorsTable(t);
    SelectDedupOrder(t, DoctorCols, Npi, k, k');
  }

  /** Every NPI of `specialty_and_locations` has its row in `doctors`, and
      every doctor has at least one location row. */
  lemma ReferentialCompleteness(t: Table)
    requires WellFormed(t) && Split(t).Ok?
    ensures NpiValues(Split(t).value.0) == NpiValues(Split(t).value.1)
  {
    DoctorsOnePerNpi(t);
    LocationKeys(t);
    FirstIndexSameKeys(Split(t).value.1.rows, t.rows, ColumnKey(Npi), Null);
  }

  /** Removing duplicate NPIs from `doctors` again changes nothing. */
  lemma DoctorsDedupIdempotent(t: Table)
    requires WellFormed(t) && Split(t).Ok?
    ensures DropDuplicateRows(Split(t).value.0, Npi) == Split(t).value.0
  {
    DropDuplicatesIdempotent(Select(t, DoctorCols).rows, ColumnKey(Npi));
  }

  predicate NotEmptyString(v: Cell)
  {
    v != Str("")
  }

  /** Every cell of `t` satisfies `ok`. */
  ghost predicate EveryCell(t: Table, ok: Cell -> bool)
  {
    forall i, c | 0 <= i < |t.rows| && c in t.rows[i] :: ok(t.rows[i][c])
  }

  /** Every row of `t` holds `v` in column `col`. */
  ghost predicate ColumnHolds(t: Table, col: string, v: Cell)
  {
    forall i | 0 <= i < |t.rows| :: col in t.rows[i] && t.rows[i][col] == v
  }

  /** Both tables take their cells from the frame they are split from. */
  lemma SplitKeepsEveryCell(t: Table, ok: Cell -> bool)
    requires WellFormed(t) && Split(t).Ok? && EveryCell(t, ok)
    ensures EveryCell(Split(t).value.0, ok) && EveryCell(Split(t).value.1, ok)
  {
    var (d, l) := Split(t).value;
    forall k | 0 <= k < |d.rows| ensures forall c | c in d.rows[k] :: ok(d.rows[k][c]) {
      DoctorRowCells(t, ok, k);
    }
    forall i | 0 <= i < |l.rows| ensures forall c | c in l.rows[i] :: ok(l.rows[i][c]) {
      LocationRowCells(t, ok, i);
    }
  }

  /** Every cell of `doctors` row `k` satisfies what every frame cell
      satisfies: the row is part of a frame row. */
  lemma DoctorRowCells(t: Table, ok: Cell -> bool, k: nat)
    requires WellFormed(t) && Split(t).Ok? && EveryCell(t, ok) && k < |Split(t).value.0.rows|
    ensures forall c | c in Split(t).value.0.rows[k] :: ok(Split(t).value.0.rows[k][c])
  {
    var d := Split(t).value.0;
    DoctorsAreFirstRows(t, k);
    var i := FirstIndex(t.rows, ColumnKey(Npi), d.rows[k][Npi]);
    forall c | c in d.rows[k] ensures ok(d.rows[k][c]) {
      assert c in DoctorCols;
      assert c in t.rows[i];
    }
  }

  /** Every cell of `specialty_and_locations` row `i` satisfies what every
      frame cell satisfies: the row is part of frame row `i`. */
  lemma LocationRowCells(t: Table, ok: Cell -> bool, i: nat)
    requires WellFormed(t) && Split(t).Ok? && EveryCell(t, ok) && i < |t.rows|
    ensures i < |Split(t).value.1.rows|
    ensures forall c | c in Split(t).value.1.rows[i] :: ok(Split(t).value.1.rows[i][c])
  {
    var l := Split(t).value.1;
    forall c | c in l.rows[i] ensures ok(l.rows[i][c]) {
      assert c in l.columns;
      LocationRow(t, i, c);
    }
  }

  /** Each `doctors` row takes its `bq_load_dttm` from a frame row. */
  lemma DoctorsKeepLoadTime(t: Table, v: Cell)
    requires WellFormed(t) && Split(t).Ok? && ColumnHolds(t, LoadTime, v)
    ensures ColumnHolds(Split(t).value.0, LoadTime, v)
  {
    var d := Split(t).value.0;
    DoctorColsDistinct();
    forall k | 0 <= k < |d.rows| ensures LoadTime in d.rows[k] && d.rows[k][LoadTime] == v {
      DoctorsAreFirstRows(t, k);
      var i := FirstIndex(t.rows, ColumnKey(Npi), d.rows[k][Npi]);
      assert d.rows[k][LoadTime] == t.rows[i][LoadTime];
    }
  }

  /** Both tables keep `bq_load_dttm`, so a value the frame holds in every
      row of it is held in every row of both. */
  lemma SplitKeepsLoadTime(t: Table, v: Cell)
    requires WellFormed(t) && Split(t).Ok? && ColumnHolds(t, LoadTime, v)
    ensures ColumnHolds(Split(t).value.0, LoadTime, v) && ColumnHolds(Split(t).value.1, LoadTime, v)
  {
    DoctorsKeepLoadTime(t, v);
    DoctorColsDistinct();
    forall i | 0 <= i < |t.rows|
      ensures i < |Split(t).value.1.rows| && LoadTime in Split(t).value.1.rows[i]
      ensures Split(t).value.1.rows[i][LoadTime] == v
    {
      LocationRow(t, i, LoadTime);
    }
  }

  /** The cell a raw field becomes: "" turns into null, the two count
      fields are coerced to numbers, and `bq_load_dttm` is the load time
      whatever the record says. */
  function ExpectedCell(rec: Record, name: string, loadTime: int): (v: Cell)
    ensures v != Str("")
    ensures Renamed(name) == GraduationYear || Renamed(name) == GroupMembers ==> v.Null? || v.Num?
  {
    var c := Renamed(name);
    if c == LoadTime then Time(loadTime)
    else if c == GraduationYear || c == GroupMembers then ToNumeric(NullIfEmpty(CellOf(Get(rec, name))))
    else NullIfEmpty(CellOf(Get(rec, name)))
  }

  /** A stamped row holds the expected cell of a field whose cleaned cell
      it held before. */
  lemma StampedField(row: Row, loadTime: int, rec: Record, name: string)
    requires GraduationYear in row && GroupMembers in row && Renamed(name) in row
    requires row[Renamed(name)] == NullIfEmpty(CellOf(Get(rec, name)))
    ensures Renamed(name) in Stamped(row, loadTime)
    ensures Stamped(row, loadTime)[Renamed(name)] == ExpectedCell(rec, name, loadTime)
  {
    StampedCells(row, loadTime);
  }

  /** `transform_data(raw_list)`, with the timestamp as a parameter. */
  function TransformData(records: seq<Record>, loadTime: int): Result<(Table, Table), Error>
    requires RenameIsInjective(records)
  {
    match Prepare(records, loadTime)
    case Err(e) => Err(e)
    case Ok(t) => Split(t)
  }
}
