/** Values shared by the extraction and the transform: optional values,
    results, and the raw records decoded from the source API. */
module Common {

  datatype Option<+T> = None | Some(value: T)

  datatype Result<+T, +E> = Ok(value: T) | Err(error: E)

  /** One field of a decoded JSON object: a name and a string value, or
      `None` for a JSON null. */
  datatype Field = Field(name: string, value: Option<string>)

  /** A raw record as the source API returns it: a JSON object, kept in
      the order its fields arrive (that order becomes the column order of
      the frame built from the records). */
  type Record = seq<Field>

  /** `rec.get(name)`: the value of the field called `name`. A field that
      is absent and a field holding null both give `None`. */
  function Get(rec: Record, name: string): Option<string>
  {
    if rec == [] then None
    else if rec[0].name == name then rec[0].value
    else Get(rec[1..], name)
  }

  /** `Get` finds a value only in a field of that name, and a record with
      no field of that name gives `None`. */
  lemma {:induction false} GetFound(rec: Record, name: string)
    ensures Get(rec, name).Some? ==> name in Names(rec)
    ensures name !in Names(rec) ==> Get(rec, name) == None
  {
    if rec != [] && rec[0].name != name {
      GetFound(rec[1..], name);
      if name in Names(rec[1..]) {
        var j :| 0 <= j < |rec| - 1 && Names(rec[1..])[j] == name;
        assert Names(rec)[j + 1] == name;
      }
      if name !in Names(rec) {
        assert forall j | 0 <= j < |rec| - 1 :: Names(rec[1..])[j] == Names(rec)[j + 1];
      }
    } else if rec != [] {
      assert Names(rec)[0] == name;
    }
  }

  /** A record's first field called `name` is what `Get` returns: its
      value, or `None` when that field holds null. */
  lemma {:induction false} GetFirst(rec: Record, name: string, j: nat)
    requires j < |rec| && rec[j].name == name
    requires forall k | 0 <= k < j :: rec[k].name != name
    ensures Get(rec, name) == rec[j].value
  {
    if j > 0 {
      GetFirst(rec[1..], name, j - 1);
    }
  }

  /** The field names of a record, in order. */
  function Names(rec: Record): (names: seq<string>)
    ensures |names| == |rec|
    ensures forall i | 0 <= i < |rec| :: names[i] == rec[i].name
  {
    seq(|rec|, i requires 0 <= i < |rec| => rec[i].name)
  }

  /** Every field name of every record, record after record. */
  function AllNames(records: seq<Record>): (names: seq<string>)
  {
    if records == [] then []
    else AllNames(records[..|records| - 1]) + Names(records[|records| - 1])
  }

  /** A name occurs in `AllNames` exactly when some record has a field of that name. */
  lemma {:induction false} InAllNames(records: seq<Record>, name: string)
    ensures name in AllNames(records) <==>
            exists i, j :: 0 <= i < |records| && 0 <= j < |records[i]| && records[i][j].name == name
  {
    if records != [] {
      var init := records[..|records| - 1];
      InAllNames(init, name);
      var last := records[|records| - 1];
      if name in Names(last) {
        var j :| 0 <= j < |last| && Names(last)[j] == name;
        assert records[|records| - 1][j].name == name;
      }
      if exists i, j :: 0 <= i < |records| && 0 <= j < |records[i]| && records[i][j].name == name {
        var i, j :| 0 <= i < |records| && 0 <= j < |records[i]| && records[i][j].name == name;
        if i < |records| - 1 {
          assert init[i][j].name == name;
        } else {
          assert Names(last)[j] == name;
        }
      }
    }
  }
}
