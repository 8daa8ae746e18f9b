# CMS doctors-and-clinicians ETL: extraction and transform

This project models the two parts of `etl.py` that have logic of their own:

- **The extraction** (`extract_cms_data`). It pages through the CMS
  provider dataset one state at a time, in the order of the state list.
  Pages are requested at offsets 0, `CHUNK_SIZE`, 2·`CHUNK_SIZE`, and so on.
  Each page keeps only the records whose `pri_spec` is on the specialty
  allow-list, and those records are appended to one result list. Paging of
  a state stops when a request fails, when a page is empty, or when a page
  is shorter than `CHUNK_SIZE`.
- **The transform** (`transform_data`). It builds a frame from the
  records and renames its columns with a fixed map. Empty strings become
  null. `graduation_year` and `number_of_group_members` are coerced to
  numbers, with null where a value does not parse. Every row is stamped
  with one load time in `bq_load_dttm`. The frame is then split into two
  tables:
  - `doctors`: the nine doctor columns, one row per NPI, keeping the first
    row for each NPI, in first-seen order;
  - `specialty_and_locations`: every row, without the seven doctor-only
    columns.

The modules follow the program:

| module | file | what it holds |
|---|---|---|
| `Common` | `common.dfy` | optional values and results; a raw record as the ordered list of fields of a decoded JSON object |
| `Extract` | `extract.dfy` | the extraction as an imperative method with loop invariants, proved against a recursive specification of the records kept and the requests issued |
| `Frames` | `frames.dfy` | the pandas operations the transform uses: the frame constructor, `rename`, `replace`, column assignment, column selection, `drop` and `drop_duplicates` |
| `Transform` | `transform.dfy` | `transform_data`: the rename table, `to_numeric`, the timestamp and the split, with its properties stated on frames |
| `TransformProperties` | `properties.dfy` | the transform's properties stated in terms of the raw records |
| `Pipeline` | `pipeline.dfy` | `main` up to the load: the extraction result handed to the transform, with the configured states, specialties and page size |

The HTTP request, its status check and the JSON decoding are an abstract
page oracle `fetch(state, offset)`. It answers `Failed` or `Page(rows)`.
The state list, the allow-list and the page size are parameters. Their
configured values (`["AL", "SD"]`, the two specialties, 1000) appear as
`Pipeline.StatesList`, `Pipeline.SpecialtyFilter` and `Pipeline.ChunkSize`.
The load time is a parameter.

Fields missing from the rename map are not dropped: pandas `rename`
(etl.py:119) keeps a column the map does not name under its original
label. `Transform.Renamed` maps an unlisted name to itself, and
`TransformProperties.PreparedCell` states the cell every raw field becomes,
mapped or not.

## Model

| member | source | states |
|---|---|---|
| Common.Get | etl.py:60 | `x.get(name)`: the value of the field called `name`, nothing when it is absent or null; no contract of its own, stated by `Common.GetFound` and `Common.GetFirst` |
| Common.GetFound | etl.py:60 | `x.get(name)` finds a value only when the record has a field of that name; a record without one gives nothing |
| Common.GetFirst | etl.py:60 | `x.get(name)` returns the value of the record's field called `name`, and nothing when that field holds JSON null |
| Common.InAllNames | etl.py:79 | a name is among the frame's field names exactly when some record has a field of that name |
| Extract.Allowed | etl.py:60 | the comprehension's test: `pri_spec` is present, not null and on the allow-list; no contract of its own, used by `Extract.KeepExactly` and `Extract.ExtractionAllowed` |
| Extract.Keep | etl.py:60 | the comprehension over one page; no contract of its own, stated by `Extract.KeepExactly` and `Extract.KeepAppend` |
| Extract.KeepExactly | etl.py:60 | the page filter keeps exactly the page's records whose `pri_spec` is present and allowed; it adds nothing, and a page of allowed records is kept whole |
| Extract.KeepAppend | etl.py:60-61 | filtering two pages one after the other is filtering their concatenation, so the relative order of records is kept |
| Extract.EndsPaging | etl.py:53-65 | the three ways paging of a state ends: a failed request, an empty page, a short page; no contract of its own, stated by `Extract.LastPage`, `Extract.StopsAtFirstEndingPage` and `Extract.PagingShape` |
| Extract.RetainedExactly | etl.py:53-61 | a failed request adds nothing to the result; a page adds exactly its allowed records, so never more records than it has |
| Extract.Offset | etl.py:43-63 | the running offset, 0 then `CHUNK_SIZE` more per page; no contract of its own, stated by `Extract.OffsetIsProduct` and `Extract.OffsetsIncrease` |
| Extract.OffsetIsProduct | etl.py:43-63 | the offset after `i` increments of `CHUNK_SIZE` from 0 is `i * CHUNK_SIZE` |
| Extract.OffsetsIncrease | etl.py:63 | with a positive page size, later requests are at strictly larger offsets |
| Extract.LastPage | etl.py:46-65 | the last page requested for a state is its first page that fails, is empty or is short |
| Extract.PageQueryAt | etl.py:47 | the `i`-th request for a state is for that state at the `i`-th offset |
| Extract.PagesRetainedAllowed | etl.py:60-61 | every record kept from a state's pages has an allowed `pri_spec` |
| Extract.ExtractionAllowed | etl.py:42-61 | every record of the extraction result has an allowed `pri_spec`; a record without `pri_spec`, or with a null one, is never in it |
| Extract.ExtractState | etl.py:43-65 | the paging loop for one state appends exactly that state's filtered pages, up to and including the first page that ends paging, and issues exactly its requests |
| Extract.ExtractCmsData | etl.py:36-68 | the result is the states' contributions in state-list order, the requests are every state's requests in that order, and every record in the result is allowed |
| Extract.ExtractionAppend | etl.py:42-61 | a run over `a + b` yields the result of a run over `a` followed by that of a run over `b`: states are processed in list order and none affects another |
| Extract.QueriesAppend | etl.py:42-47 | the requests of a run over `a + b` are those for `a` followed by those for `b` |
| Extract.StopsAtFirstEndingPage | etl.py:49-65 | paging of a state ends at its first failing, empty or short page: nothing after it is requested or kept |
| Extract.PagingShape | etl.py:43-65 | the requests for a state are at offsets 0, C, 2C, …, strictly increasing when C > 0; every page before the last was a full page; the last one ended paging |
| Extract.FailureIsolation | etl.py:49-58 | a failed request or an empty page keeps the records of the state's earlier pages and of every earlier state, and every later state still contributes its records |
| Extract.FailureIsolationQueries | etl.py:49-58 | after a failed request or an empty page no further request is issued for that state, and every later state is still requested |
| Extract.FourPagesStop | etl.py:57-65 | with pages of 1000, 1000, 1000 and 400 rows, the first three pages continue paging and the fourth ends it |
| Extract.FirstFourQueries | etl.py:47-63 | the first four requests for a state are at offsets 0, C, 2C and 3C |
| Extract.FourPagesExample | etl.py:63-65 | pages of 1000, 1000, 1000 and 400 rows with a page size of 1000 give exactly four requests, at offsets 0, 1000, 2000 and 3000, and no request for an empty page |
| Frames.DropDuplicates | etl.py:139 | `drop_duplicates(keep="first")` on one key; no contract of its own, stated by the five `Frames.DropDuplicates…` lemmas below |
| Frames.DropDuplicatesKeys | etl.py:139 | `drop_duplicates` loses no key, keeps no key twice and never adds rows |
| Frames.DropDuplicatesSubset | etl.py:139 | `drop_duplicates` keeps only rows of its input |
| Frames.DropDuplicatesKeepsFirst | etl.py:139 | each kept row is the first input row with its key |
| Frames.DropDuplicatesFirstSeenOrder | etl.py:139 | kept rows come in the order in which their keys are first seen |
| Frames.DropDuplicatesOfDistinct | etl.py:139 | rows whose keys are already distinct are left as they are |
| Frames.DropDuplicatesIdempotent | etl.py:139 | dropping duplicates twice is dropping them once |
| Frames.Without | etl.py:141 | the list comprehension keeps exactly the doctor columns not excluded, and keeps them distinct |
| Frames.Frame | etl.py:79 | the frame has one row per record and a column per field name; each cell is the record's value for that field, null when the record lacks it |
| Frames.RenameRow | etl.py:119 | a renamed row holds each cell under its column's new label |
| Frames.RenameColumns | etl.py:119 | `rename` keeps every column in its place with its cells and gives it its new label; labels stay distinct |
| Frames.NullIfEmpty | etl.py:119 | `replace({"": None})` leaves no empty string in a cell |
| Frames.ReplaceEmpty | etl.py:119 | every empty-string cell becomes null and every other cell is unchanged |
| Frames.MapColumn | etl.py:122-123 | a whole-column overwrite changes that column's cells and nothing else |
| Frames.AssignColumn | etl.py:125 | a scalar assignment puts the value in every row, and appends the column when the frame lacks it |
| Frames.Select | etl.py:139 | `df[cols]` has exactly the listed columns, in order, with their cells |
| Frames.DropColumns | etl.py:140-142 | `drop(columns=…)` keeps every other column, in order, with its cells |
| Frames.DropColumnsFirstIndex | etl.py:140-142 | dropping columns other than `col` keeps every `col` value and the row where it first occurs |
| Frames.DropDuplicateRows | etl.py:139 | `drop_duplicates(subset=[col])` keeps the columns and the first row per value of `col` |
| Frames.SelectDedupKeys | etl.py:139 | the selected and deduplicated rows hold every `col` value of the frame, each once |
| Frames.SelectDedupRow | etl.py:139 | each selected and deduplicated row is the selected part of the first frame row with its `col` value |
| Frames.SelectDedupOrder | etl.py:139 | the selected and deduplicated rows come in first-seen order of their `col` values |
| Transform.DroppedColsDerived | etl.py:140-142 | the dropped columns are exactly the doctor columns other than `npi` and `bq_load_dttm` |
| Transform.DoctorColsDistinct | etl.py:127-141 | the doctor columns are distinct, include `npi` and `bq_load_dttm`, and contain every dropped column |
| Transform.Renamed | etl.py:81-119 | the label `rename_map` gives a raw field name, the name itself when the map does not list it; no contract of its own, stated through `Frames.RenameColumns`, `Transform.CleanedCell` and `TransformProperties.PreparedCell` |
| Transform.ParseInt | etl.py:122-123 | a string parses to a number exactly when it is an integer numeral |
| Transform.ParseShowInt | etl.py:122-123 | every integer's decimal numeral parses back to that integer |
| Transform.ParseIntExamples | etl.py:122-123 | "2005", "-12" and "007" parse to 2005, -12 and 7; "N/A", "" and "-" do not parse |
| Transform.ToNumeric | etl.py:122-123 | `to_numeric(errors="coerce")` gives a number or null and never fails; a numeral becomes its value, any other text and a null become null |
| Transform.Cleaned | etl.py:79-119 | the renamed and null-normalised frame has one row per record, a column per renamed field name, and no empty string |
| Transform.CleanedCell | etl.py:79-119 | under a field's new name, row `i` holds record `i`'s value for that field, with "" turned into null |
| Transform.Stamped | etl.py:122-125 | one row after the two coercions and the timestamp; no contract of its own, stated by `Transform.StampedCells` |
| Transform.StampedCells | etl.py:122-125 | a stamped row has both count columns coerced, `bq_load_dttm` set to the load time, and every other cell unchanged |
| Transform.StampedTable | etl.py:122-125 | the coercions and the timestamp are applied to every row, and only `bq_load_dttm` may be added as a column |
| Transform.Prepare | etl.py:79-125 | preparation fails with `KeyError` for `graduation_year`, then for `number_of_group_members`, exactly when the renamed fields lack it; otherwise every row is the stamped cleaned row |
| Transform.PreparedColumns | etl.py:119-125 | the prepared frame's columns are the renamed field names plus `bq_load_dttm` |
| Transform.Split | etl.py:127-142 | the split fails exactly when a doctor column is missing, naming exactly the missing ones; otherwise `doctors` has exactly the doctor columns, and `specialty_and_locations` has every row, keeps `npi` and `bq_load_dttm`, and drops the seven other doctor columns |
| Transform.LocationRow | etl.py:140-142 | a `specialty_and_locations` cell is the frame's cell in the same row and column |
| Transform.LocationKeys | etl.py:140-142 | each `specialty_and_locations` row has the NPI of the frame row it comes from |
| Transform.LocationNpis | etl.py:140-142 | the first `specialty_and_locations` row with an NPI is the first frame row with it |
| Transform.DoctorsOnePerNpi | etl.py:139 | `doctors` holds each NPI of the frame exactly once |
| Transform.DoctorsAreFirstRows | etl.py:139 | each `doctors` row is the doctor columns of the first frame row with its NPI |
| Transform.DoctorsInFirstSeenOrder | etl.py:139 | `doctors` rows come in the order in which their NPIs first occur |
| Transform.ReferentialCompleteness | etl.py:139-142 | the NPIs of `specialty_and_locations` are exactly the NPIs of `doctors` |
| Transform.DoctorsDedupIdempotent | etl.py:139 | dropping duplicate NPIs from `doctors` again changes nothing |
| Transform.SplitKeepsEveryCell | etl.py:139-142 | both tables take every cell from the frame, so a property of every frame cell holds of every table cell |
| Transform.DoctorRowCells | etl.py:139 | every cell of a `doctors` row is a cell of the frame |
| Transform.LocationRowCells | etl.py:140-142 | every cell of a `specialty_and_locations` row is a cell of the frame |
| Transform.DoctorsKeepLoadTime | etl.py:125-139 | a `bq_load_dttm` value held by every frame row is held by every `doctors` row |
| Transform.SplitKeepsLoadTime | etl.py:125-142 | a `bq_load_dttm` value held by every frame row is held by every row of both tables |
| Transform.ExpectedCell | etl.py:119-125 | the cell a raw field becomes is never the empty string, and the two count fields become a number or null |
| Transform.StampedField | etl.py:122-125 | a stamped row holds the cell a field becomes, under the field's new name |
| Transform.TransformData | etl.py:74-145 | `transform_data` with the timestamp as a parameter; no contract of its own, stated by `TransformProperties.TransformSucceedsIff`, `TransformProperties.TransformErrorReports`, `TransformProperties.PreparedCell`, `TransformProperties.LocationCell`, `TransformProperties.DoctorCell` and the table lemmas of `Transform` |
| TransformProperties.TransformSucceedsIff | etl.py:119-139 | the transform succeeds exactly when the renamed fields include both count columns and every doctor column except `bq_load_dttm` |
| TransformProperties.TransformErrorReports | etl.py:122-139 | a failing transform reports the missing column of its first failing step: `graduation_year`, then `number_of_group_members`, then exactly the missing doctor columns |
| TransformProperties.EmptyInputFails | etl.py:79-122 | an empty record list fails with `KeyError` for `graduation_year` |
| TransformProperties.PreparedCell | etl.py:79-125 | row `i` of the prepared frame holds, under each field's new name, the cell that field of record `i` becomes; unmapped fields keep their names |
| TransformProperties.PreparedCells | etl.py:119-125 | the prepared frame holds no empty string and holds the load time in every row |
| TransformProperties.NoEmptyStrings | etl.py:119-145 | neither table holds an empty string |
| TransformProperties.SharedLoadTime | etl.py:125-145 | every row of both tables carries the same `bq_load_dttm`, the load time |
| TransformProperties.LocationsShape | etl.py:127-142 | `specialty_and_locations` has one row per record and every column of the renamed frame except the seven doctor-only ones; `doctors` has exactly the doctor columns |
| TransformProperties.LocationCell | etl.py:79-142 | row `i` of `specialty_and_locations` holds, under each kept field's new name, the cell that field of record `i` becomes |
| TransformProperties.DoctorCell | etl.py:79-139 | each `doctors` row holds the cells of the first record with its NPI, which is also the first `specialty_and_locations` row with that NPI |
| TransformProperties.DoctorRecord | etl.py:79-139 | each `doctors` row is the doctor part of one input record, the first with its NPI: it holds that record's cell in every doctor column |
| Pipeline.SpecialtyColumnKept | etl.py:94 | `pri_spec` is renamed to `primary_specialty`, which both the coercions and the drop leave alone |
| Pipeline.SpecialtyCell | etl.py:60-119 | an allowed `pri_spec` becomes an allowed `primary_specialty` cell |
| Pipeline.KeptSpecialty | etl.py:60-142 | a kept record becomes a `specialty_and_locations` row whose `primary_specialty` is allowed |
| Pipeline.OnlyAllowedSpecialties | etl.py:60-142 | every row of `specialty_and_locations` built from the extraction has an allowed `primary_specialty` |
| Pipeline.OnlyAllowedDoctors | etl.py:60-139 | every row of `doctors` built from the extraction is the doctor part of an extracted record whose `pri_spec` is allowed |
| Pipeline.RunEtl | etl.py:171-173 | `main` before the load returns the transform of the extraction result, and every location row it returns has an allowed specialty |
| Pipeline.ConfiguredSpecialty | etl.py:23 | the configured allow-list holds no empty string, so an allowed specialty is one of its two names |
| Pipeline.Etl | etl.py:171-173 | with the configured states, specialties and page size, every location row is an orthopedic surgery row or a diagnostic radiology row |

## Left out

- The HTTP request, the status check and the JSON decoding (etl.py:50-52) are the abstract oracle `Extract.Fetcher`. Every failure of that block is `Failed`. With a positive page size, the requests for one state are at distinct offsets. A state listed twice, or a page size of 0, repeats requests, and the oracle, being a function, gives a repeated request the same answer, which the live API need not do.
- The query text (etl.py:47) is not built. A request is recorded as `Extract.Query(state, offset)`, which is all the text varies in.
- A response body is taken to be a list of JSON objects whose values are strings or null. A falsy body of another shape (JSON null, `{}`, `""`, 0, false) ends paging like an empty page (etl.py:57-58), which `Page([])` covers. A truthy body that is not a list, or a list element that is not an object, raises outside the `try` (etl.py:60); the model does not cover that. Numbers, booleans and nested values in a record are not modelled.
- Common.Get returns the first field of a name. A decoded JSON object has one field per name, so the order of duplicates never matters.
- Extract.ExtractCmsData requires that paging of every state ends: some page fails, is empty or is short. Otherwise the source's `while True` loop never ends.
- Logging (etl.py:11-16, 38, 44, 54, 67, 77, 144) has no effect on the data and is left out.
- `load_to_bigquery` and the load calls of `main` (etl.py:151-165, 175-178) are a foreign client with credentials and persistence. They are left out. `Pipeline.RunEtl` and `Pipeline.Etl` stop at the two tables.
- `pd.Timestamp.utcnow()` (etl.py:125) is the parameter `loadTime`, as a whole number of time units.
- Transform.ToNumeric: parses only integer numerals (an optional sign and decimal digits). pandas also parses decimals, exponents, `inf`/`infinity` and surrounding whitespace into floats; those become null here instead of a number.
- Transform.TransformData requires that no two raw field names are renamed to one label (`Transform.RenameIsInjective`). pandas would build a frame with a repeated column label, which the model's tables cannot hold. None of the mapped names clash with one another.
- pandas dtypes, NaN, and the index are not modelled. `drop_duplicates` keeps the original index labels, which the model's row sequences do not carry.
- A `KeyError`'s message text is not modelled. `Transform.Error` carries the list of missing column names.
