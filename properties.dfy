/** What `transform_data` promises about the tables it builds, stated in
    terms of the raw records: which inputs make it fail, what every cell
    holds, and that both tables share one load timestamp. */
module TransformProperties {
  import opened Common
  import opened Frames
  import opened Transform

  /** A transform that succeeds splits the prepared frame: preparation
      succeeded, keeps one row per record, and its result is what `Split`
      takes apart. The lemmas below start from this. */
  lemma SplitOfPrepared(records: seq<Record>, loadTime: int)
    requires RenameIsInjective(records) && TransformData(records, loadTime).Ok?
    ensures Prepare(records, loadTime).Ok? && WellFormed(Prepare(records, loadTime).value)
    ensures |Prepare(records, loadTime).value.rows| == |records|
    ensures TransformData(records, loadTime) == Split(Prepare(records, loadTime).value)
  {
  }

  /** The transform succeeds exactly when the renamed fields include the
      two coerced columns and every doctor column but the load time (which
      the transform adds itself). */
  lemma TransformSucceedsIff(records: seq<Record>, loadTime: int)
    requires RenameIsInjective(records)
    ensures TransformData(records, loadTime).Ok? <==>
      && GraduationYear in RenamedNames(records)
      && GroupMembers in RenamedNames(records)
      && forall c | c in DoctorCols && c != LoadTime :: c in RenamedNames(records)
  {
    var rn := RenamedNames(records);
    if GraduationYear in rn && GroupMembers in rn {
      var p := Prepare(records, loadTime).value;
      assert TransformData(records, loadTime) == Split(p);
      PreparedColumns(records, loadTime);
    }
  }

  /** A failing transform reports the missing columns of its first failing
      step: `graduation_year`, then `number_of_group_members`, then the
      doctor columns. */
  lemma TransformErrorReports(records: seq<Record>, loadTime: int)
    requires RenameIsInjective(records)
    ensures var r := TransformData(records, loadTime);
      && (GraduationYear !in RenamedNames(records) ==> r == Err(MissingColumns([GraduationYear])))
      && (GraduationYear in RenamedNames(records) && GroupMembers !in RenamedNames(records) ==>
            r == Err(MissingColumns([GroupMembers])))
      && (r.Err? && GraduationYear in RenamedNames(records) && GroupMembers in RenamedNames(records) ==>
            forall c :: c in r.error.names <==> c in DoctorCols && c != LoadTime && c !in RenamedNames(records))
  {
    var rn := RenamedNames(records);
    if GraduationYear in rn && GroupMembers in rn {
      var p := Prepare(records, loadTime).value;
      assert TransformData(records, loadTime) == Split(p);
      PreparedColumns(records, loadTime);
    }
  }

  /** An empty record list has no `graduation_year` column. */
  lemma EmptyInputFails(loadTime: int)
    ensures RenameIsInjective([])
    ensures TransformData([], loadTime) == Err(MissingColumns([GraduationYear]))
  {
    assert AllNames([]) == [];
    assert RenamedNames([]) == {};
  }

  /** Row `i` of the prepared frame holds, under each field's new name, the
      cell that field of record `i` becomes. */
  lemma PreparedCell(records: seq<Record>, loadTime: int, i: nat, name: string)
    requires RenameIsInjective(records) && Prepare(records, loadTime).Ok?
    requires i < |records| && name in AllNames(records)
    ensures Renamed(name) in Prepare(records, loadTime).value.rows[i]
    ensures Prepare(records, loadTime).value.rows[i][Renamed(name)] == ExpectedCell(records[i], name, loadTime)
  {
    var t := Cleaned(records);
    CleanedCell(records, i, name);
    StampedField(t.rows[i], loadTime, records[i], name);
  }

  /** The prepared frame holds no empty string and one load time. */
  lemma PreparedCells(records: seq<Record>, loadTime: int)
    requires RenameIsInjective(records) && Prepare(records, loadTime).Ok?
    ensures EveryCell(Prepare(records, loadTime).value, NotEmptyString)
    ensures ColumnHolds(Prepare(records, loadTime).value, LoadTime, Time(loadTime))
  {
    var p := Prepare(records, loadTime).value;
    var t := Cleaned(records);
    PreparedColumns(records, loadTime);
    forall i, c | 0 <= i < |p.rows| && c in p.rows[i] ensures NotEmptyString(p.rows[i][c]) {
      if c != LoadTime {
        assert c in p.columns;
        var n :| n in AllNames(records) && Renamed(n) == c;
        PreparedCell(records, loadTime, i, n);
      }
    }
    forall i | 0 <= i < |p.rows| ensures LoadTime in p.rows[i] && p.rows[i][LoadTime] == Time(loadTime) {
      StampedCells(t.rows[i], loadTime);
    }
  }

  /** Neither table holds an empty string: every "" became null. */
  lemma NoEmptyStrings(records: seq<Record>, loadTime: int)
    requires RenameIsInjective(records) && TransformData(records, loadTime).Ok?
    ensures EveryCell(TransformData(records, loadTime).value.0, NotEmptyString)
    ensures EveryCell(TransformData(records, loadTime).value.1, NotEmptyString)
  {
    PreparedCells(records, loadTime);
    SplitKeepsEveryCell(Prepare(records, loadTime).value, NotEmptyString);
  }

  /** Every row of both tables carries the same load timestamp. */
  lemma SharedLoadTime(records: seq<Record>, loadTime: int)
    requires RenameIsInjective(records) && TransformData(records, loadTime).Ok?
    ensures ColumnHolds(TransformData(records, loadTime).value.0, LoadTime, Time(loadTime))
    ensures ColumnHolds(TransformData(records, loadTime).value.1, LoadTime, Time(loadTime))
  {
    PreparedCells(records, loadTime);
    SplitKeepsLoadTime(Prepare(records, loadTime).value, Time(loadTime));
  }

  /** `specialty_and_locations` has one row per record, in record order,
      and every column of the renamed frame except the seven doctor-only
      ones. */
  lemma LocationsShape(records: seq<Record>, loadTime: int)
    requires RenameIsInjective(records) && TransformData(records, loadTime).Ok?
    ensures var l := TransformData(records, loadTime).value.1;
      && |l.rows| == |records|
      && forall c :: c in l.columns <==> (c in RenamedNames(records) || c == LoadTime) && c !in DroppedCols
    ensures TransformData(records, loadTime).value.0.columns == DoctorCols
  {
    var p := Prepare(records, loadTime).value;
    assert TransformData(records, loadTime) == Split(p);
    PreparedColumns(records, loadTime);
  }

  /** Row `i` of `specialty_and_locations` holds, under each kept field's
      new name, the cell that field of record `i` becomes. */
  lemma LocationCell(records: seq<Record>, loadTime: int, i: nat, name: string)
    requires RenameIsInjective(records) && TransformData(records, loadTime).Ok?
    requires i < |records| && name in AllNames(records) && Renamed(name) !in DroppedCols
    ensures var l := TransformData(records, loadTime).value.1;
      && Renamed(name) in l.columns
      && l.rows[i][Renamed(name)] == ExpectedCell(records[i], name, loadTime)
  {
    SplitOfPrepared(records, loadTime);
    PreparedCell(records, loadTime, i, name);
    LocationRow(Prepare(records, loadTime).value, i, Renamed(name));
  }

  /** Row `k` of `doctors` holds, under each doctor field's new name, the
      cell that field becomes in the first record whose NPI it has, which
      is also the first `specialty_and_locations` row with that NPI. */
  lemma DoctorCell(records: seq<Record>, loadTime: int, k: nat, name: string)
    requires RenameIsInjective(records) && TransformData(records, loadTime).Ok?
    requires k < |TransformData(records, loadTime).value.0.rows|
    requires name in AllNames(records) && Renamed(name) in DoctorCols
    ensures var (d, l) := TransformData(records, loadTime).value;
      && d.rows[k][Npi] in NpiValues(l)
      && var i := FirstIndex(l.rows, ColumnKey(Npi), d.rows[k][Npi]);
         i < |records| && d.rows[k][Renamed(name)] == ExpectedCell(records[i], name, loadTime)
  {
    var p := Prepare(records, loadTime).value;
    assert TransformData(records, loadTime) == Split(p);
    var d := Split(p).value.0;
    DoctorsAreFirstRows(p, k);
    LocationNpis(p, d.rows[k][Npi]);
    var i := FirstIndex(p.rows, ColumnKey(Npi), d.rows[k][Npi]);
    PreparedCell(records, loadTime, i, name);
  }

  /** Row `k` of `doctors` is the doctor part of one input record: the first
      record with its NPI, whose cells it holds in every doctor column. */
  lemma DoctorRecord(records: seq<Record>, loadTime: int, k: nat)
    requires RenameIsInjective(records) && TransformData(records, loadTime).Ok?
    requires k < |TransformData(records, loadTime).value.0.rows|
    ensures var (d, l) := TransformData(records, loadTime).value;
      && d.rows[k][Npi] in NpiValues(l)
      && var i := FirstIndex(l.rows, ColumnKey(Npi), d.rows[k][Npi]);
         && i < |records|
         && forall name | name in AllNames(records) && Renamed(name) in DoctorCols ::
              d.rows[k][Renamed(name)] == ExpectedCell(records[i], name, loadTime)
  {
    var p := Prepare(records, loadTime).value;
    assert TransformData(records, loadTime) == Split(p);
    var d := Split(p).value.0;
    DoctorsAreFirstRows(p, k);
    LocationNpis(p, d.rows[k][Npi]);
    forall name | name in AllNames(records) && Renamed(name) in DoctorCols
      ensures d.rows[k][Renamed(name)] == ExpectedCell(records[FirstIndex(p.rows, ColumnKey(Npi), d.rows[k][Npi])], name, loadTime)
    {
      DoctorCell(records, loadTime, k, name);
    }
  }
}
