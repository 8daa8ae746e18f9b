/** The part of a pandas DataFrame that the transform relies on: an ordered
    list of column labels and a sequence of rows, each row a map from every
    label to a cell. The index, dtypes and float/NaN encodings are not
    modelled. */
module Frames {
  import opened Common

  /** One cell: null (None or NaN), a string, a number, or a UTC instant. */
  datatype Cell = Null | Str(s: string) | Num(n: int) | Time(instant: int)

  type Row = map<string, Cell>

  datatype Table = Table(columns: seq<string>, rows: seq<Row>)

  predicate Distinct<T(==)>(s: seq<T>)
  {
    forall i, j | 0 <= i < j < |s| :: s[i] != s[j]
  }

  /** Column labels are distinct and every row has exactly those labels. */
  ghost predicate WellFormed(t: Table)
  {
    && Distinct(t.columns)
    && forall i | 0 <= i < |t.rows| :: t.rows[i].Keys == (set c | c in t.columns)
  }

  /** The keys of the elements of `s`. */
  ghost function KeySet<T, K>(s: seq<T>, key: T -> K): set<K>
  {
    set x | x in s :: key(x)
  }

  /** Appending an element adds its key to the key set. */
  lemma KeySetSnoc<T, K>(s: seq<T>, x: T, key: T -> K)
    ensures KeySet(s + [x], key) == KeySet(s, key) + {key(x)}
  {
    assert forall y | y in s + [x] :: y in s || y == x;
  }

  /** The key of every element is in the key set. */
  lemma KeySetAt<T, K>(s: seq<T>, key: T -> K, i: nat)
    requires i < |s|
    ensures key(s[i]) in KeySet(s, key)
  {
    assert s[i] in s;
  }

  /** `DataFrame.drop_duplicates` on one key (`keep="first"`): the elements
      of `s` whose key has not been seen before, in order. */
  function DropDuplicates<T, K(==)>(s: seq<T>, key: T -> K): seq<T>
  {
    if s == [] then []
    else
      var kept := DropDuplicates(s[..|s| - 1], key);
      if exists j | 0 <= j < |kept| :: key(kept[j]) == key(s[|s| - 1]) then kept
      else kept + [s[|s| - 1]]
  }

  /** Index of the first element of `s` whose key is `k`. */
  function FirstIndex<T, K(==)>(s: seq<T>, key: T -> K, k: K): (i: nat)
    requires k in KeySet(s, key)
    ensures i < |s| && key(s[i]) == k
    ensures forall j | 0 <= j < i :: key(s[j]) != k
  {
    if key(s[0]) == k then 0
    else
      assert k in KeySet(s[1..], key) by {
        var x :| x in s && key(x) == k;
        var j :| 0 <= j < |s| && s[j] == x;
        assert s[1..][j - 1] == x;
      }
      1 + FirstIndex(s[1..], key, k)
  }

  /** Appending an element does not move the first index of a key the
      prefix already has. */
  lemma FirstIndexOfPrefix<T, K>(p: seq<T>, x: T, key: T -> K, k: K)
    requires k in KeySet(p, key)
    ensures k in KeySet(p + [x], key)
    ensures FirstIndex(p + [x], key, k) == FirstIndex(p, key, k)
  {
    KeySetSnoc(p, x, key);
    var i' := FirstIndex(p, key, k);
    assert (p + [x])[i'] == p[i'];
  }

  /** An appended element whose key is new is the first with that key. */
  lemma FirstIndexOfLast<T, K>(p: seq<T>, x: T, key: T -> K)
    requires key(x) !in KeySet(p, key)
    ensures key(x) in KeySet(p + [x], key)
    ensures FirstIndex(p + [x], key, key(x)) == |p|
  {
    KeySetSnoc(p, x, key);
    var i := FirstIndex(p + [x], key, key(x));
    if i < |p| {
      assert (p + [x])[i] == p[i];
      KeySetAt(p, key, i);
    }
  }

  /** `drop_duplicates` loses no key and keeps no key twice. */
  lemma {:induction false} DropDuplicatesKeys<T, K>(s: seq<T>, key: T -> K)
    ensures var r := DropDuplicates(s, key);
      && KeySet(r, key) == KeySet(s, key)
      && |r| <= |s|
      && (forall i, j | 0 <= i < j < |r| :: key(r[i]) != key(r[j]))
  {
    if s != [] {
      var p, x := s[..|s| - 1], s[|s| - 1];
      assert s == p + [x];
      DropDuplicatesKeys(p, key);
      var kept := DropDuplicates(p, key);
      KeySetSnoc(p, x, key);
      if exists j | 0 <= j < |kept| :: key(kept[j]) == key(x) {
        var j :| 0 <= j < |kept| && key(kept[j]) == key(x);
        KeySetAt(kept, key, j);
      } else {
        KeySetSnoc(kept, x, key);
      }
    }
  }

  /** Two sequences whose keys agree position by position have the same
      keys and the same first index for each key. */
  lemma FirstIndexSameKeys<T, K>(s: seq<T>, s': seq<T>, key: T -> K, k: K)
    requires |s| == |s'| && forall i | 0 <= i < |s| :: key(s[i]) == key(s'[i])
    ensures KeySet(s, key) == KeySet(s', key)
    ensures k in KeySet(s, key) ==> FirstIndex(s, key, k) == FirstIndex(s', key, k)
  {
    forall x | x in s ensures key(x) in KeySet(s', key) {
      var i :| 0 <= i < |s| && s[i] == x;
      KeySetAt(s', key, i);
    }
    forall x | x in s' ensures key(x) in KeySet(s, key) {
      var i :| 0 <= i < |s'| && s'[i] == x;
      KeySetAt(s, key, i);
    }
  }

  /** `drop_duplicates` keeps only elements of its input. */
  lemma {:induction false} DropDuplicatesSubset<T, K>(s: seq<T>, key: T -> K)
    ensures forall x | x in DropDuplicates(s, key) :: x in s
  {
    if s != [] {
      DropDuplicatesSubset(s[..|s| - 1], key);
    }
  }

  /** Each element `drop_duplicates` keeps is the first element of the
      input with its key. */
  lemma {:induction false} DropDuplicatesKeepsFirst<T, K>(s: seq<T>, key: T -> K)
    ensures var r := DropDuplicates(s, key);
      forall i | 0 <= i < |r| :: key(r[i]) in KeySet(s, key) && r[i] == s[FirstIndex(s, key, key(r[i]))]
  {
    if s != [] {
      var p, x := s[..|s| - 1], s[|s| - 1];
      assert s == p + [x];
      DropDuplicatesKeepsFirst(p, key);
      DropDuplicatesKeys(p, key);
      var kept := DropDuplicates(p, key);
      var r := DropDuplicates(s, key);
      forall i | 0 <= i < |r| ensures key(r[i]) in KeySet(s, key) && r[i] == s[FirstIndex(s, key, key(r[i]))] {
        if i < |kept| {
          assert r[i] == kept[i];
          FirstIndexOfPrefix(p, x, key, key(kept[i]));
        } else {
          assert r == kept + [x];
          FirstIndexOfLast(p, x, key);
        }
      }
    }
  }

  /** `drop_duplicates` keeps elements in the order in which their keys are
      first seen. */
  lemma {:induction false} DropDuplicatesFirstSeenOrder<T, K>(s: seq<T>, key: T -> K)
    ensures var r := DropDuplicates(s, key);
      forall i, j | 0 <= i < j < |r| ::
        key(r[i]) in KeySet(s, key) && key(r[j]) in KeySet(s, key) &&
        FirstIndex(s, key, key(r[i])) < FirstIndex(s, key, key(r[j]))
  {
    if s != [] {
      var p, x := s[..|s| - 1], s[|s| - 1];
      assert s == p + [x];
      DropDuplicatesFirstSeenOrder(p, key);
      DropDuplicatesKeys(p, key);
      var kept := DropDuplicates(p, key);
      var r := DropDuplicates(s, key);
      forall i, j | 0 <= i < j < |r|
        ensures key(r[i]) in KeySet(s, key) && key(r[j]) in KeySet(s, key)
        ensures FirstIndex(s, key, key(r[i])) < FirstIndex(s, key, key(r[j]))
      {
        assert r[i] == kept[i];
        KeySetAt(kept, key, i);
        FirstIndexOfPrefix(p, x, key, key(kept[i]));
        if j < |kept| {
          assert r[j] == kept[j];
          KeySetAt(kept, key, j);
          FirstIndexOfPrefix(p, x, key, key(kept[j]));
        } else {
          assert r == kept + [x];
          FirstIndexOfLast(p, x, key);
        }
      }
    }
  }

  /** A sequence whose keys are already distinct is left as it is. */
  lemma {:induction false} DropDuplicatesOfDistinct<T, K>(s: seq<T>, key: T -> K)
    requires forall i, j | 0 <= i < j < |s| :: key(s[i]) != key(s[j])
    ensures DropDuplicates(s, key) == s
  {
    if s != [] {
      var p, x := s[..|s| - 1], s[|s| - 1];
      DropDuplicatesOfDistinct(p, key);
      assert s == p + [x];
    }
  }

  /** Dropping duplicates twice is dropping them once. */
  lemma DropDuplicatesIdempotent<T, K>(s: seq<T>, key: T -> K)
    ensures DropDuplicates(DropDuplicates(s, key), key) == DropDuplicates(s, key)
  {
    DropDuplicatesKeys(s, key);
    DropDuplicatesOfDistinct(DropDuplicates(s, key), key);
  }

  /** `[c for c in cols if c not in drop]`: the labels of `cols` that are
      not in `drop`, in order. */
  function Without(cols: seq<string>, drop: seq<string>): (kept: seq<string>)
    ensures forall c :: c in kept <==> c in cols && c !in drop
    ensures Distinct(cols) ==> Distinct(kept)
  {
    if cols == [] then []
    else (if cols[0] in drop then [] else [cols[0]]) + Without(cols[1..], drop)
  }

  /** A column label used as its own key, to drop repeated labels. */
  function Label(c: string): string
  {
    c
  }

  /** With labels as their own keys, the key set is the set of labels. */
  lemma LabelKeys(s: seq<string>)
    ensures forall c :: c in KeySet(s, Label) <==> c in s
  {
    forall c | c in s ensures c in KeySet(s, Label) {
      assert Label(c) == c;
    }
  }

  /** A raw JSON value as a frame cell: a string stays a string, null is null. */
  function CellOf(v: Option<string>): Cell
  {
    match v
    case Some(s) => Str(s)
    case None => Null
  }

  /** `pd.DataFrame(raw_list)`: one row per record; the columns are the field
      names in the order they are first seen; a record without a field holds
      null there. */
  function Frame(records: seq<Record>): (t: Table)
    ensures WellFormed(t) && |t.rows| == |records|
    ensures forall c :: c in t.columns <==> c in AllNames(records)
    ensures forall i, c | 0 <= i < |records| && c in t.columns :: t.rows[i][c] == CellOf(Get(records[i], c))
  {
    var names := AllNames(records);
    var cols := DropDuplicates(names, Label);
    DropDuplicatesKeys(names, Label);
    LabelKeys(names);
    LabelKeys(cols);
    Table(cols, seq(|records|, i requires 0 <= i < |records| => map c | c in cols :: CellOf(Get(records[i], c))))
  }

  /** Labels `a` and `b` are renamed to the same label. */
  predicate SameLabel(rename: string -> string, a: string, b: string)
  {
    rename(a) == rename(b)
  }

  /** No two distinct labels of `cols` are renamed to the same label. */
  predicate NoRenameClash(rename: string -> string, cols: seq<string>)
  {
    forall a, b {:trigger SameLabel(rename, a, b)} | a in cols && b in cols && a != b :: !SameLabel(rename, a, b)
  }

  /** One row under `rename(columns=...)`. */
  function RenameRow(rename: string -> string, row: Row): (r: Row)
    requires forall a, b {:trigger SameLabel(rename, a, b)} | a in row && b in row && a != b :: !SameLabel(rename, a, b)
    ensures r.Keys == set c | c in row :: rename(c)
    ensures forall c | c in row :: rename(c) in r && r[rename(c)] == row[c]
  {
    assert forall a, b | a in row && b in row && rename(a) == rename(b) :: a == b by {
      forall a, b | a in row && b in row && rename(a) == rename(b) ensures a == b {
        if a != b {
          assert SameLabel(rename, a, b);
        }
      }
    }
    map c | c in row :: rename(c) := row[c]
  }

  /** `DataFrame.rename(columns=mapping)`, with the mapping given as the
      label it gives each column (a label the mapping does not name maps to
      itself): every column keeps its place and its cells and takes its new
      label. */
  function RenameColumns(t: Table, rename: string -> string): (u: Table)
    requires WellFormed(t) && NoRenameClash(rename, t.columns)
    ensures WellFormed(u) && |u.rows| == |t.rows| && |u.columns| == |t.columns|
    ensures forall j | 0 <= j < |t.columns| :: u.columns[j] == rename(t.columns[j])
    ensures (set c | c in u.columns) == set a | a in t.columns :: rename(a)
    ensures forall i, c | 0 <= i < |t.rows| && c in t.columns :: u.rows[i][rename(c)] == t.rows[i][c]
  {
    var cols := seq(|t.columns|, j requires 0 <= j < |t.columns| => rename(t.columns[j]));
    assert (set c | c in cols) == set a | a in t.columns :: rename(a) by {
      forall a | a in t.columns ensures rename(a) in cols {
        var j :| 0 <= j < |t.columns| && t.columns[j] == a;
        assert cols[j] == rename(a);
      }
    }
    assert Distinct(cols) by {
      forall i, j | 0 <= i < j < |cols| ensures cols[i] != cols[j] {
        assert t.columns[i] != t.columns[j];
        assert !SameLabel(rename, t.columns[i], t.columns[j]);
      }
    }
    Table(cols, seq(|t.rows|, i requires 0 <= i < |t.rows| => RenameRow(rename, t.rows[i])))
  }

  /** `replace({"": None})` on one cell. */
  function NullIfEmpty(v: Cell): (w: Cell)
    ensures w != Str("")
  {
    if v == Str("") then Null else v
  }

  /** `DataFrame.replace({"": None})`: every empty string becomes null. */
  function ReplaceEmpty(t: Table): (u: Table)
    requires WellFormed(t)
    ensures WellFormed(u) && u.columns == t.columns && |u.rows| == |t.rows|
    ensures forall i, c | 0 <= i < |t.rows| && c in t.columns :: u.rows[i][c] == NullIfEmpty(t.rows[i][c])
  {
    Table(t.columns, seq(|t.rows|, i requires 0 <= i < |t.rows| => map c | c in t.rows[i] :: NullIfEmpty(t.rows[i][c])))
  }

  /** `df[col] = f(df[col])` on an existing column: each cell of `col` is
      replaced by `f` of itself; nothing else changes. */
  function MapColumn(t: Table, col: string, f: Cell -> Cell): (u: Table)
    requires WellFormed(t) && col in t.columns
    ensures WellFormed(u) && u.columns == t.columns && |u.rows| == |t.rows|
    ensures forall i | 0 <= i < |t.rows| :: u.rows[i] == t.rows[i][col := f(t.rows[i][col])]
  {
    Table(t.columns, seq(|t.rows|, i requires 0 <= i < |t.rows| => t.rows[i][col := f(t.rows[i][col])]))
  }

  /** `df[col] = v` with a scalar: every row holds `v` in `col`; a new column
      is appended after the existing ones. */
  function AssignColumn(t: Table, col: string, v: Cell): (u: Table)
    requires WellFormed(t)
    ensures WellFormed(u) && |u.rows| == |t.rows|
    ensures u.columns == if col in t.columns then t.columns else t.columns + [col]
    ensures forall i | 0 <= i < |t.rows| :: u.rows[i] == t.rows[i][col := v]
  {
    var cols := if col in t.columns then t.columns else t.columns + [col];
    assert forall c :: c in cols <==> c in t.columns || c == col;
    Table(cols, seq(|t.rows|, i requires 0 <= i < |t.rows| => t.rows[i][col := v]))
  }

  /** `df[cols]`: the listed columns, in the listed order. */
  function Select(t: Table, cols: seq<string>): (u: Table)
    requires WellFormed(t) && Distinct(cols) && forall c | c in cols :: c in t.columns
    ensures WellFormed(u) && u.columns == cols && |u.rows| == |t.rows|
    ensures forall i, c | 0 <= i < |t.rows| && c in cols :: u.rows[i][c] == t.rows[i][c]
  {
    Table(cols, seq(|t.rows|, i requires 0 <= i < |t.rows| => map c | c in cols :: t.rows[i][c]))
  }

  /** `df.drop(columns=drop)`: the other columns, in their order, with their
      cells. (pandas raises KeyError for a label it does not have.) */
  function DropColumns(t: Table, drop: seq<string>): (u: Table)
    requires WellFormed(t) && forall c | c in drop :: c in t.columns
    ensures WellFormed(u) && u.columns == Without(t.columns, drop) && |u.rows| == |t.rows|
    ensures forall i, c | 0 <= i < |t.rows| && c in u.columns :: u.rows[i][c] == t.rows[i][c]
  {
    var cols := Without(t.columns, drop);
    Table(cols, seq(|t.rows|, i requires 0 <= i < |t.rows| => map c | c in cols :: t.rows[i][c]))
  }

  /** The cell of a row in column `col`, as a key for `drop_duplicates(subset=[col])`. */
  function ColumnKey(col: string): Row -> Cell
  {
    (r: Row) => if col in r then r[col] else Null
  }

  /** `df.drop_duplicates(subset=[col])`: the first row for each value of `col`. */
  function DropDuplicateRows(t: Table, col: string): (u: Table)
    requires WellFormed(t)
    ensures WellFormed(u) && u.columns == t.columns
    ensures u.rows == DropDuplicates(t.rows, ColumnKey(col))
  {
    var rows := DropDuplicates(t.rows, ColumnKey(col));
    DropDuplicatesSubset(t.rows, ColumnKey(col));
    assert forall i | 0 <= i < |rows| :: rows[i].Keys == (set c | c in t.columns) by {
      forall i | 0 <= i < |rows| ensures rows[i].Keys == (set c | c in t.columns) {
        assert rows[i] in t.rows;
      }
    }
    Table(t.columns, rows)
  }

  /** `DropDuplicatesKeepsFirst` at one position. */
  lemma DropDuplicatesKeepsFirstAt<T, K>(s: seq<T>, key: T -> K, k: nat)
    requires k < |DropDuplicates(s, key)|
    ensures var r := DropDuplicates(s, key);
      key(r[k]) in KeySet(s, key) && r[k] == s[FirstIndex(s, key, key(r[k]))]
  {
    DropDuplicatesKeepsFirst(s, key);
  }

  /** `DropDuplicatesFirstSeenOrder` at one pair of positions. */
  lemma DropDuplicatesOrderAt<T, K>(s: seq<T>, key: T -> K, k: nat, k': nat)
    requires k < k' < |DropDuplicates(s, key)|
    ensures var r := DropDuplicates(s, key);
      && key(r[k]) in KeySet(s, key) && key(r[k']) in KeySet(s, key)
      && FirstIndex(s, key, key(r[k])) < FirstIndex(s, key, key(r[k']))
  {
    DropDuplicatesFirstSeenOrder(s, key);
  }

  /** Selecting columns that include `col` keeps each row's `col` cell. */
  lemma SelectKeepsKey(t: Table, cols: seq<string>, col: string)
    requires WellFormed(t) && Distinct(cols) && (forall c | c in cols :: c in t.columns) && col in cols
    ensures |Select(t, cols).rows| == |t.rows|
    ensures forall i | 0 <= i < |t.rows| :: ColumnKey(col)(Select(t, cols).rows[i]) == ColumnKey(col)(t.rows[i])
  {
  }

  /** Selecting columns that include `col` leaves the `col` values, and
      where each first occurs, as they were. */
  lemma SelectFirstIndex(t: Table, cols: seq<string>, col: string, v: Cell)
    requires WellFormed(t) && Distinct(cols) && (forall c | c in cols :: c in t.columns) && col in cols
    requires v in KeySet(Select(t, cols).rows, ColumnKey(col))
    ensures v in KeySet(t.rows, ColumnKey(col))
    ensures FirstIndex(Select(t, cols).rows, ColumnKey(col), v) == FirstIndex(t.rows, ColumnKey(col), v)
  {
    SelectKeepsKey(t, cols, col);
    FirstIndexSameKeys(Select(t, cols).rows, t.rows, ColumnKey(col), v);
  }

  /** Dropping columns other than `col` leaves the `col` values, and where
      each first occurs, as they were. */
  lemma DropColumnsFirstIndex(t: Table, drop: seq<string>, col: string, v: Cell)
    requires WellFormed(t) && (forall c | c in drop :: c in t.columns) && col in t.columns && col !in drop
    requires v in KeySet(t.rows, ColumnKey(col))
    ensures v in KeySet(DropColumns(t, drop).rows, ColumnKey(col))
    ensures FirstIndex(DropColumns(t, drop).rows, ColumnKey(col), v) == FirstIndex(t.rows, ColumnKey(col), v)
  {
    var u := DropColumns(t, drop);
    assert forall i | 0 <= i < |t.rows| :: ColumnKey(col)(u.rows[i]) == ColumnKey(col)(t.rows[i]) by {
      forall i | 0 <= i < |t.rows| ensures ColumnKey(col)(u.rows[i]) == ColumnKey(col)(t.rows[i]) {
        assert col in u.columns;
      }
    }
    FirstIndexSameKeys(u.rows, t.rows, ColumnKey(col), v);
  }

  /** `df[cols].drop_duplicates(subset=[col])` has the `col` values of
      `df`, each once. */
  lemma SelectDedupKeys(t: Table, cols: seq<string>, col: string)
    requires WellFormed(t) && Distinct(cols) && (forall c | c in cols :: c in t.columns) && col in cols
    ensures var d := DropDuplicateRows(Select(t, cols), col);
      && KeySet(d.rows, ColumnKey(col)) == KeySet(t.rows, ColumnKey(col))
      && forall k, k' | 0 <= k < k' < |d.rows| :: ColumnKey(col)(d.rows[k]) != ColumnKey(col)(d.rows[k'])
  {
    var s := Select(t, cols).rows;
    SelectKeepsKey(t, cols, col);
    DropDuplicatesKeys(s, ColumnKey(col));
    FirstIndexSameKeys(s, t.rows, ColumnKey(col), Null);
  }

  /** Row `k` of `df[cols].drop_duplicates(subset=[col])` is the `cols`
      part of the first row of `df` with its `col` value. */
  lemma SelectDedupRow(t: Table, cols: seq<string>, col: string, k: nat)
    requires WellFormed(t) && Distinct(cols) && (forall c | c in cols :: c in t.columns) && col in cols
    requires k < |DropDuplicateRows(Select(t, cols), col).rows|
    ensures var d := DropDuplicateRows(Select(t, cols), col);
      var v := ColumnKey(col)(d.rows[k]);
      && v in KeySet(t.rows, ColumnKey(col))
      && forall c | c in cols :: d.rows[k][c] == t.rows[FirstIndex(t.rows, ColumnKey(col), v)][c]
  {
    var key := ColumnKey(col);
    var s := Select(t, cols).rows;
    var r := DropDuplicates(s, key);
    DropDuplicatesKeepsFirstAt(s, key, k);
    SelectKeepsKey(t, cols, col);
    var v := key(r[k]);
    FirstIndexSameKeys(s, t.rows, key, v);
    assert r[k] == s[FirstIndex(t.rows, key, v)];
  }

  /** The rows of `df[cols].drop_duplicates(subset=[col])` come in the order
      in which their `col` values first occur in `df`. */
  lemma SelectDedupOrder(t: Table, cols: seq<string>, col: string, k: nat, k': nat)
    requires WellFormed(t) && Distinct(cols) && (forall c | c in cols :: c in t.columns) && col in cols
    requires k < k' < |DropDuplicateRows(Select(t, cols), col).rows|
    ensures var d := DropDuplicateRows(Select(t, cols), col);
      var v, v' := ColumnKey(col)(d.rows[k]), ColumnKey(col)(d.rows[k']);
      && v in KeySet(t.rows, ColumnKey(col)) && v' in KeySet(t.rows, ColumnKey(col))
      && FirstIndex(t.rows, ColumnKey(col), v) < FirstIndex(t.rows, ColumnKey(col), v')
  {
    var key := ColumnKey(col);
    var s := Select(t, cols).rows;
    var r := DropDuplicates(s, key);
    DropDuplicatesOrderAt(s, key, k, k');
    SelectFirstIndex(t, cols, col, key(r[k]));
    SelectFirstIndex(t, cols, col, key(r[k']));
  }
}
