/** The pandas DataFrame behind the grid (`TableModel._data`), as a value: an
    ordered list of column names, rows of cells and the row index labels.

    pandas addresses rows and columns by LABEL (`loc[label] = ...`,
    `drop(index=[label])`, `drop(columns[[c]], axis=1)`); the window hands it
    positions. The functions prefixed `Loc`/`Drop` model the label semantics
    (a drop requires its label, where pandas raises KeyError). The command
    functions AddRow, AddColumn, DeleteRow and DeleteColumn prove that, under
    the invariant `Consistent` the window keeps (labels are 0..n-1, column
    names are distinct), the label operations act on exactly the intended
    position. SetCell is the positional `iloc` write. */
module Table {

  datatype Option<T> = None | Some(value: T)

  /** A stored value: NaN (`Empty`) or opaque text. */
  datatype Cell = Empty | Text(value: string)

  /** `str(value)`: NaN prints as "nan", text as itself. */
  function Str(c: Cell): (r: string)
    ensures c.Text? ==> r == c.value
    ensures c.Empty? ==> r == "nan"
  {
    match c
    case Empty => "nan"
    case Text(s) => s
  }

  /** The row `loc[label] = np.nan` writes: NaN in every column. */
  function EmptyRow(width: nat): (r: seq<Cell>)
    ensures |r| == width && forall j :: 0 <= j < width ==> r[j] == Empty
  {
    seq(width, _ => Empty)
  }

  /** A RangeIndex of length n: the labels 0, 1, ..., n-1. */
  function Range(n: nat): (r: seq<int>)
    ensures |r| == n && forall i :: 0 <= i < n ==> r[i] == i
  {
    seq(n, i => i)
  }

  predicate Distinct<T(==)>(s: seq<T>) {
    forall i, j :: 0 <= i < j < |s| ==> s[i] != s[j]
  }

  predicate Rectangular(width: nat, rows: seq<seq<Cell>>) {
    forall i :: 0 <= i < |rows| ==> |rows[i]| == width
  }

  /** Sequence `s` without its element at position `p`. */
  function RemoveAt<T>(s: seq<T>, p: nat): (r: seq<T>)
    requires p < |s|
    ensures |r| == |s| - 1
    ensures forall i :: 0 <= i < p ==> r[i] == s[i]
    ensures forall i :: p <= i < |r| ==> r[i] == s[i + 1]
  {
    s[..p] + s[p + 1..]
  }

  lemma RemoveAtDistinct<T>(s: seq<T>, p: nat)
    requires p < |s| && Distinct(s)
    ensures Distinct(RemoveAt(s, p))
  {
  }

  /** The filter behind pandas `drop`: keeps `xs[i]` exactly where
      `keys[i] != k`. One entry is removed per occurrence of `k` (so a
      present key removes at least one, an absent key none) and a single
      entry goes exactly when its key is `k`; `DropAppend` shows the filter
      works entry by entry, which with the single-entry case fixes the
      survivors and their order. */
  function Drop<K(==), T>(keys: seq<K>, xs: seq<T>, k: K): (r: seq<T>)
    requires |keys| == |xs|
    ensures |r| <= |xs|
    ensures |r| == |xs| - multiset(keys)[k]
    ensures k in keys ==> |r| < |xs|
    ensures k !in keys ==> r == xs
    ensures |xs| == 1 ==> (keys[0] == k <==> r == [])
    decreases |xs|
  {
    if xs == [] then []
    else
      var rest := Drop(keys[1..], xs[1..], k);
      assert multiset(keys) == multiset{keys[0]} + multiset(keys[1..]) by {
        assert keys == [keys[0]] + keys[1..];
      }
      (if keys[0] == k then [] else [xs[0]]) + rest
  }


  /** Dropping from two concatenated halves drops from each half. */
  lemma {:induction false} DropAppend<K, T>(keys1: seq<K>, xs1: seq<T>, keys2: seq<K>, xs2: seq<T>, k: K)
    requires |keys1| == |xs1| && |keys2| == |xs2|
    ensures Drop(keys1 + keys2, xs1 + xs2, k) == Drop(keys1, xs1, k) + Drop(keys2, xs2, k)
    decreases |xs1|
  {
    if xs1 == [] {
      assert keys1 + keys2 == keys2 && xs1 + xs2 == xs2;
    } else {
      var keys, xs := keys1 + keys2, xs1 + xs2;
      assert keys[1..] == keys1[1..] + keys2;
      assert xs[1..] == xs1[1..] + xs2;
      DropAppend(keys1[1..], xs1[1..], keys2, xs2, k);
    }
  }

  /** Dropping a label that sits at position `p` only removes position `p`. */
  lemma {:induction false} DropAtUnique<K, T>(keys: seq<K>, xs: seq<T>, k: K, p: nat)
    requires |keys| == |xs| && p < |keys| && keys[p] == k
    requires forall i :: 0 <= i < |keys| && i != p ==> keys[i] != k
    ensures Drop(keys, xs, k) == RemoveAt(xs, p)
    decreases |xs|
  {
    if p == 0 {
      assert k !in keys[1..] by {
        forall i | 0 <= i < |keys[1..]| ensures keys[1..][i] != k {
          assert keys[1..][i] == keys[i + 1];
        }
      }
      assert Drop(keys[1..], xs[1..], k) == xs[1..];
    } else {
      DropAtUnique(keys[1..], xs[1..], k, p - 1);
      assert RemoveAt(xs, p) == [xs[0]] + RemoveAt(xs[1..], p - 1);
    }
  }

  /** With distinct keys, dropping key k removes exactly the position holding k. */
  lemma DropDistinct<K, T>(keys: seq<K>, xs: seq<T>, k: K)
    requires |keys| == |xs|
    ensures Distinct(keys) ==>
              forall p :: 0 <= p < |keys| && keys[p] == k ==> Drop(keys, xs, k) == RemoveAt(xs, p)
  {
    if Distinct(keys) {
      forall p | 0 <= p < |keys| && keys[p] == k ensures Drop(keys, xs, k) == RemoveAt(xs, p) {
        DropAtUnique(keys, xs, k, p);
      }
    }
  }

  /** The same, for every row of a table whose header is `keys`. */
  lemma DropDistinctEach<K, T>(keys: seq<K>, rows: seq<seq<T>>, k: K)
    requires forall i :: 0 <= i < |rows| ==> |rows[i]| == |keys|
    ensures Distinct(keys) ==>
              forall p, i :: 0 <= p < |keys| && keys[p] == k && 0 <= i < |rows| ==>
                Drop(keys, rows[i], k) == RemoveAt(rows[i], p)
  {
    if Distinct(keys) {
      forall p, i | 0 <= p < |keys| && keys[p] == k && 0 <= i < |rows|
        ensures Drop(keys, rows[i], k) == RemoveAt(rows[i], p)
      {
        DropAtUnique(keys, rows[i], k, p);
      }
    }
  }

  /** The in-memory DataFrame. */
  datatype Frame = Frame(columns: seq<string>, rows: seq<seq<Cell>>, index: seq<int>)

  /** What any DataFrame satisfies: one label per row, one cell per column. */
  predicate WellFormed(f: Frame) {
    |f.index| == |f.rows| && Rectangular(|f.columns|, f.rows)
  }

  /** What the window keeps true: the loaded frame has at least one column
      (column 0, shown as buttons), its names are distinct (read_csv renames
      duplicates), and the labels are the RangeIndex 0..n-1. */
  predicate Consistent(f: Frame) {
    |f.columns| >= 1 && Distinct(f.columns) &&
    Rectangular(|f.columns|, f.rows) && f.index == Range(|f.rows|)
  }

  /** The contents of `info.csv`: `to_csv(index=False)` writes the header and
      the rows, not the index labels. */
  datatype Csv = Csv(header: seq<string>, records: seq<seq<Cell>>)

  function ToCsv(f: Frame): (c: Csv)
    ensures c.header == f.columns && c.records == f.rows
  {
    Csv(f.columns, f.rows)
  }

  /** `iloc[r, c] = v`: positional write of one cell. */
  function SetCell(f: Frame, r: nat, c: nat, v: Cell): (g: Frame)
    requires WellFormed(f) && r < |f.rows| && c < |f.columns|
    ensures WellFormed(g) && (Consistent(f) ==> Consistent(g))
    ensures g.columns == f.columns && g.index == f.index && |g.rows| == |f.rows|
    ensures g.rows[r][c] == v
    ensures forall i, j :: 0 <= i < |f.rows| && 0 <= j < |f.columns| && (i, j) != (r, c) ==>
              g.rows[i][j] == f.rows[i][j]
  {
    f.(rows := f.rows[r := f.rows[r][c := v]])
  }

  /** `loc[key] = np.nan`: overwrites the rows labelled `key` with NaN, or
      appends a NaN row labelled `key` when no row carries it. */
  function LocSetRow(f: Frame, key: int): (g: Frame)
    requires WellFormed(f)
    ensures WellFormed(g) && g.columns == f.columns
    ensures key !in f.index ==>
              g.rows == f.rows + [EmptyRow(|f.columns|)] && g.index == f.index + [key]
    ensures key in f.index ==>
              g.index == f.index && |g.rows| == |f.rows| &&
              forall i :: 0 <= i < |f.rows| ==>
                g.rows[i] == if f.index[i] == key then EmptyRow(|f.columns|) else f.rows[i]
  {
    if key in f.index then
      f.(rows := seq(|f.rows|, i requires 0 <= i < |f.rows| =>
                       if f.index[i] == key then EmptyRow(|f.columns|) else f.rows[i]))
    else
      Frame(f.columns, f.rows + [EmptyRow(|f.columns|)], f.index + [key])
  }

  /** `add_row`: `loc[len(df)] = np.nan`. Since the labels are 0..n-1, label n
      is new and a NaN row is appended under it. */
  function AddRow(f: Frame): (g: Frame)
    requires Consistent(f)
    ensures Consistent(g)
    ensures g.columns == f.columns
    ensures |g.rows| == |f.rows| + 1
    ensures g.rows[..|f.rows|] == f.rows
    ensures g.rows[|f.rows|] == EmptyRow(|f.columns|)
    ensures g.index[|f.rows|] == |f.rows|
  {
    assert |f.rows| !in f.index;
    LocSetRow(f, |f.rows|)
  }

  /** NaN in every position of `row` whose column is named `name`. */
  function BlankWhere(columns: seq<string>, row: seq<Cell>, name: string): (r: seq<Cell>)
    requires |row| == |columns|
    ensures |r| == |row|
  {
    seq(|row|, j requires 0 <= j < |row| => if columns[j] == name then Empty else row[j])
  }

  /** `loc[:, name] = np.nan`: overwrites the columns named `name` with NaN, or
      appends a NaN column `name` when there is none. */
  function LocSetColumn(f: Frame, name: string): (g: Frame)
    requires WellFormed(f)
    ensures WellFormed(g) && g.index == f.index && |g.rows| == |f.rows|
    ensures name !in f.columns ==>
              g.columns == f.columns + [name] &&
              forall i :: 0 <= i < |f.rows| ==> g.rows[i] == f.rows[i] + [Empty]
    ensures name in f.columns ==>
              g.columns == f.columns &&
              forall i, j :: 0 <= i < |f.rows| && 0 <= j < |f.columns| ==>
                g.rows[i][j] == if f.columns[j] == name then Empty else f.rows[i][j]
  {
    if name in f.columns then
      f.(rows := seq(|f.rows|, i requires 0 <= i < |f.rows| =>
                       BlankWhere(f.columns, f.rows[i], name)))
    else
      Frame(f.columns + [name],
            seq(|f.rows|, i requires 0 <= i < |f.rows| => f.rows[i] + [Empty]),
            f.index)
  }

  /** `add_col`: a fresh name is appended last with NaN in every row; an
      existing name is not duplicated, its column is overwritten with NaN. */
  function AddColumn(f: Frame, name: string): (g: Frame)
    requires Consistent(f)
    ensures Consistent(g)
    ensures g.index == f.index && |g.rows| == |f.rows|
    ensures name !in f.columns ==>
              g.columns == f.columns + [name] &&
              forall i :: 0 <= i < |f.rows| ==> g.rows[i] == f.rows[i] + [Empty]
    ensures forall c :: 0 <= c < |f.columns| && f.columns[c] == name ==>
              g.columns == f.columns &&
              forall i :: 0 <= i < |f.rows| ==> g.rows[i] == f.rows[i][c := Empty]
  {
    if name !in f.columns then AppendFreshDistinct(f.columns, name); LocSetColumn(f, name)
    else LocSetColumn(f, name)
  }

  lemma AppendFreshDistinct<T>(s: seq<T>, x: T)
    requires Distinct(s) && x !in s
    ensures Distinct(s + [x])
  {
  }

  /** `drop(index=[key])`: removes every row labelled `key`, with its label.
      pandas raises KeyError when no row carries `key`, hence the requires. */
  function DropRowLabel(f: Frame, key: int): (g: Frame)
    requires WellFormed(f) && key in f.index
    ensures WellFormed(g)
    ensures g.columns == f.columns && |g.rows| < |f.rows|
    ensures |g.rows| == |f.rows| - multiset(f.index)[key]
    ensures g.rows == Drop(f.index, f.rows, key) && g.index == Drop(f.index, f.index, key)
    ensures key !in g.index
    ensures forall p :: 0 <= p < |f.index| && f.index[p] == key && Distinct(f.index) ==>
              g.rows == RemoveAt(f.rows, p) && g.index == RemoveAt(f.index, p)
  {
    DropDistinct(f.index, f.rows, key);
    DropDistinct(f.index, f.index, key);
    DropRowsWidth(f.index, f.rows, key, |f.columns|);
    DropKeyGone(f.index, key);
    Frame(f.columns, Drop(f.index, f.rows, key), Drop(f.index, f.index, key))
  }

  /** Dropping rows keeps every surviving row as wide as the header. */
  lemma {:induction false} DropRowsWidth<K>(keys: seq<K>, rows: seq<seq<Cell>>, k: K, width: nat)
    requires |keys| == |rows| && Rectangular(width, rows)
    ensures Rectangular(width, Drop(keys, rows, k))
    decreases |rows|
  {
    if rows != [] {
      DropRowsWidth(keys[1..], rows[1..], k, width);
    }
  }

  /** After dropping key k from the keys themselves, k is gone. */
  lemma {:induction false} DropKeyGone<K>(keys: seq<K>, k: K)
    ensures k !in Drop(keys, keys, k)
    decreases |keys|
  {
    if keys != [] {
      DropKeyGone(keys[1..], k);
    }
  }

  /** `reset_index(drop=True)`: the labels become 0..n-1 again. */
  function ResetIndex(f: Frame): (g: Frame)
    ensures g.index == Range(|f.rows|) && g.rows == f.rows && g.columns == f.columns
  {
    f.(index := Range(|f.rows|))
  }

  /** `delete_row` on selected row r: the window passes the POSITION r as a
      key to `drop`; since labels are 0..n-1, exactly row r goes, later
      rows move up by one and the labels are packed again. */
  function DeleteRow(f: Frame, r: nat): (g: Frame)
    requires Consistent(f) && r < |f.rows|
    ensures Consistent(g)
    ensures g.columns == f.columns
    ensures g.rows == RemoveAt(f.rows, r)
    ensures |g.rows| == |f.rows| - 1
    ensures forall i :: 0 <= i < r ==> g.rows[i] == f.rows[i]
    ensures forall i :: r <= i < |g.rows| ==> g.rows[i] == f.rows[i + 1]
    ensures g.index == Range(|f.rows| - 1)
  {
    assert f.index[r] == r && Distinct(f.index);
    ResetIndex(DropRowLabel(f, r))
  }

  /** `drop(name, axis=1)`: removes every column named `name`, in the header
      and in every row. pandas raises KeyError when no column is named
      `name`, hence the requires. */
  function DropColumnLabel(f: Frame, name: string): (g: Frame)
    requires WellFormed(f) && name in f.columns
    ensures WellFormed(g)
    ensures g.index == f.index && |g.rows| == |f.rows| && |g.columns| < |f.columns|
    ensures |g.columns| == |f.columns| - multiset(f.columns)[name]
    ensures g.columns == Drop(f.columns, f.columns, name)
    ensures forall i :: 0 <= i < |f.rows| ==> g.rows[i] == Drop(f.columns, f.rows[i], name)
    ensures name !in g.columns
    ensures forall c :: 0 <= c < |f.columns| && f.columns[c] == name && Distinct(f.columns) ==>
              g.columns == RemoveAt(f.columns, c) &&
              forall i :: 0 <= i < |f.rows| ==> g.rows[i] == RemoveAt(f.rows[i], c)
  {
    DropDistinct(f.columns, f.columns, name);
    DropDistinctEach(f.columns, f.rows, name);
    DropKeyGone(f.columns, name);
    Frame(Drop(f.columns, f.columns, name),
          seq(|f.rows|, i requires 0 <= i < |f.rows| => Drop(f.columns, f.rows[i], name)),
          f.index)
  }

  /** `delete_col` on selected column c >= 1: the window drops by the NAME of
      column c; since names are distinct, exactly column c goes and column 0
      stays first. */
  function DeleteColumn(f: Frame, c: nat): (g: Frame)
    requires Consistent(f) && 1 <= c < |f.columns|
    ensures Consistent(g)
    ensures g.columns == RemoveAt(f.columns, c)
    ensures g.columns[0] == f.columns[0]
    ensures |g.rows| == |f.rows| && g.index == f.index
    ensures forall i :: 0 <= i < |f.rows| ==> g.rows[i] == RemoveAt(f.rows[i], c)
  {
    RemoveAtDistinct(f.columns, c);
    DropColumnLabel(f, f.columns[c])
  }

  /** Deleting the row `add_row` just appended gives back the table. */
  lemma AddRowThenDeleteRow(f: Frame)
    requires Consistent(f)
    ensures DeleteRow(AddRow(f), |f.rows|) == f
  {
    var g := DeleteRow(AddRow(f), |f.rows|);
    assert g.rows == AddRow(f).rows[..|f.rows|];
  }

  /** Deleting the fresh column `add_col` just appended gives back the table. */
  lemma AddColumnThenDeleteColumn(f: Frame, name: string)
    requires Consistent(f) && name !in f.columns
    ensures DeleteColumn(AddColumn(f, name), |f.columns|) == f
  {
    var g := AddColumn(f, name);
    var h := DeleteColumn(g, |f.columns|);
    RemoveLast(f.columns, name);
    forall i | 0 <= i < |f.rows| ensures h.rows[i] == f.rows[i] {
      RemoveLast(f.rows[i], Empty);
    }
  }

  /** Removing the last position undoes an append. */
  lemma RemoveLast<T>(xs: seq<T>, x: T)
    ensures RemoveAt(xs + [x], |xs|) == xs
  {
    assert (xs + [x])[..|xs|] == xs;
  }

  /** Writing a cell's previous value back undoes an edit. */
  lemma SetCellUndo(f: Frame, r: nat, c: nat, v: Cell)
    requires WellFormed(f) && r < |f.rows| && c < |f.columns|
    ensures SetCell(SetCell(f, r, c, v), r, c, f.rows[r][c]) == f
  {
    var g := SetCell(SetCell(f, r, c, v), r, c, f.rows[r][c]);
    assert g.rows[r] == f.rows[r];
  }
}
