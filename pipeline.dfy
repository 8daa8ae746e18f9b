/** `main` of etl.py up to the load: the extracted records are handed to
    the transform. The BigQuery load is not part of this model. */
module Pipeline {
  import opened Common
  import opened Extract
  import opened Frames
  import opened Transform
  import opened TransformProperties

  /** The configuration `main` runs with: the states paged, in order, the
      specialties kept and the page size. */
  const StatesList: seq<string> := ["AL", "SD"]
  const SpecialtyFilter: seq<string> := ["ORTHOPEDIC SURGERY", "DIAGNOSTIC RADIOLOGY"]
  const ChunkSize: nat := 1000

  const SpecialtyColumn := "primary_specialty"

  /** A `primary_specialty` cell of a loaded row: an allowed specialty, or
      null where the allow-list itself holds the empty string (which the
      transform turns into null). */
  predicate AllowedSpecialty(v: Cell, allow: seq<string>)
  {
    || (v.Str? && v.s in allow)
    || (v.Null? && "" in allow)
  }

  /** A field a record has is among the field names of the records. */
  lemma NamedIn(records: seq<Record>, i: nat, name: string)
    requires i < |records| && Get(records[i], name).Some?
    ensures name in AllNames(records)
  {
    GetFound(records[i], name);
    var j :| 0 <= j < |records[i]| && Names(records[i])[j] == name;
    InAllNames(records, name);
  }

  /** `pri_spec` is renamed to `primary_specialty`, which the split keeps. */
  lemma SpecialtyColumnKept()
    ensures Renamed("pri_spec") == SpecialtyColumn
    ensures SpecialtyColumn !in DroppedCols
    ensures SpecialtyColumn != LoadTime && SpecialtyColumn != GraduationYear && SpecialtyColumn != GroupMembers
  {
  }

  /** The cell an allowed `pri_spec` becomes is an allowed specialty. */
  lemma SpecialtyCell(rec: Record, loadTime: int, allow: seq<string>)
    requires Allowed(rec, allow)
    ensures AllowedSpecialty(ExpectedCell(rec, "pri_spec", loadTime), allow)
  {
    SpecialtyColumnKept();
    assert ExpectedCell(rec, "pri_spec", loadTime) == NullIfEmpty(Str(Get(rec, "pri_spec").value));
  }

  /** A record the extraction keeps becomes, in `specialty_and_locations`,
      a row whose `primary_specialty` is allowed. */
  lemma KeptSpecialty(records: seq<Record>, loadTime: int, i: nat, allow: seq<string>)
    requires RenameIsInjective(records) && TransformData(records, loadTime).Ok?
    requires i < |records| && Allowed(records[i], allow)
    ensures var l := TransformData(records, loadTime).value.1;
      && i < |l.rows| && SpecialtyColumn in l.rows[i]
      && AllowedSpecialty(l.rows[i][SpecialtyColumn], allow)
  {
    NamedIn(records, i, "pri_spec");
    SpecialtyColumnKept();
    SpecialtyCell(records[i], loadTime, allow);
    LocationsShape(records, loadTime);
    LocationCell(records, loadTime, i, "pri_spec");
  }

  /** No specialty outside the allow-list reaches `specialty_and_locations`:
      every row of it carries an allowed `primary_specialty`. */
  lemma OnlyAllowedSpecialties(fetch: Fetcher, states: seq<string>, chunk: nat, allow: seq<string>, loadTime: int)
    requires RenameIsInjective(Extraction(fetch, states, chunk, allow))
    requires TransformData(Extraction(fetch, states, chunk, allow), loadTime).Ok?
    ensures var l := TransformData(Extraction(fetch, states, chunk, allow), loadTime).value.1;
      forall i | 0 <= i < |l.rows| :: SpecialtyColumn in l.rows[i] && AllowedSpecialty(l.rows[i][SpecialtyColumn], allow)
  {
    var records := Extraction(fetch, states, chunk, allow);
    ExtractionAllowed(fetch, states, chunk, allow);
    LocationsShape(records, loadTime);
    var l := TransformData(records, loadTime).value.1;
    forall i | 0 <= i < |l.rows|
      ensures SpecialtyColumn in l.rows[i] && AllowedSpecialty(l.rows[i][SpecialtyColumn], allow)
    {
      assert records[i] in records;
      KeptSpecialty(records, loadTime, i, allow);
    }
  }

  /** No doctor outside the allow-list reaches `doctors`: row `k` of it
      holds, in every doctor column, the cell of the first extracted record
      with its NPI, and that record's `pri_spec` is allowed. */
  lemma OnlyAllowedDoctors(fetch: Fetcher, states: seq<string>, chunk: nat, allow: seq<string>, loadTime: int, k: nat)
    requires RenameIsInjective(Extraction(fetch, states, chunk, allow))
    requires TransformData(Extraction(fetch, states, chunk, allow), loadTime).Ok?
    requires k < |TransformData(Extraction(fetch, states, chunk, allow), loadTime).value.0.rows|
    ensures var records := Extraction(fetch, states, chunk, allow);
      var (d, l) := TransformData(records, loadTime).value;
      && d.rows[k][Npi] in NpiValues(l)
      && var i := FirstIndex(l.rows, ColumnKey(Npi), d.rows[k][Npi]);
         && i < |records| && Allowed(records[i], allow)
         && forall name | name in AllNames(records) && Renamed(name) in DoctorCols ::
              d.rows[k][Renamed(name)] == ExpectedCell(records[i], name, loadTime)
  {
    var records := Extraction(fetch, states, chunk, allow);
    var (d, l) := TransformData(records, loadTime).value;
    DoctorRecord(records, loadTime, k);
    ExtractionAllowed(fetch, states, chunk, allow);
    assert records[FirstIndex(l.rows, ColumnKey(Npi), d.rows[k][Npi])] in records;
  }

  /** `raw = extract_cms_data(); transform_data(raw)`: the two tables
      `main` loads, or the transform's error. */
  method RunEtl(fetch: Fetcher, states: seq<string>, allow: seq<string>, chunk: nat, loadTime: int)
    returns (r: Result<(Table, Table), Error>)
    requires AllFinite(fetch, states, chunk)
    requires RenameIsInjective(Extraction(fetch, states, chunk, allow))
    ensures r == TransformData(Extraction(fetch, states, chunk, allow), loadTime)
    ensures r.Ok? ==> forall i | 0 <= i < |r.value.1.rows| ::
      SpecialtyColumn in r.value.1.rows[i] && AllowedSpecialty(r.value.1.rows[i][SpecialtyColumn], allow)
  {
    var raw, _ := ExtractCmsData(fetch, states, allow, chunk);
    r := TransformData(raw, loadTime);
    if r.Ok? {
      OnlyAllowedSpecialties(fetch, states, chunk, allow, loadTime);
    }
  }

  /** The configured allow-list has no empty string, so an allowed
      specialty is one of its two names. */
  lemma ConfiguredSpecialty(v: Cell)
    requires AllowedSpecialty(v, SpecialtyFilter)
    ensures v in {Str("ORTHOPEDIC SURGERY"), Str("DIAGNOSTIC RADIOLOGY")}
  {
    assert "" != SpecialtyFilter[0] && "" != SpecialtyFilter[1];
  }

  /** `main` up to the load, with the configured states, specialties and
      page size: every `specialty_and_locations` row is an orthopedic
      surgery or a diagnostic radiology row. */
  method Etl(fetch: Fetcher, loadTime: int) returns (r: Result<(Table, Table), Error>)
    requires AllFinite(fetch, StatesList, ChunkSize)
    requires RenameIsInjective(Extraction(fetch, StatesList, ChunkSize, SpecialtyFilter))
    ensures r == TransformData(Extraction(fetch, StatesList, ChunkSize, SpecialtyFilter), loadTime)
    ensures r.Ok? ==> forall i | 0 <= i < |r.value.1.rows| ::
      && SpecialtyColumn in r.value.1.rows[i]
      && r.value.1.rows[i][SpecialtyColumn] in {Str("ORTHOPEDIC SURGERY"), Str("DIAGNOSTIC RADIOLOGY")}
  {
    r := RunEtl(fetch, StatesList, SpecialtyFilter, ChunkSize, loadTime);
    if r.Ok? {
      var l := r.value.1;
      forall i | 0 <= i < |l.rows|
        ensures SpecialtyColumn in l.rows[i]
        ensures l.rows[i][SpecialtyColumn] in {Str("ORTHOPEDIC SURGERY"), Str("DIAGNOSTIC RADIOLOGY")}
      {
        ConfiguredSpecialty(l.rows[i][SpecialtyColumn]);
      }
    }
  }
}
