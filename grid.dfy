/** The Qt model over the DataFrame (`TableModel`) and the two item
    delegates: the text-editing delegate used for every column and the
    push-button delegate installed on column 0. */
module Grid {
  import opened Table
  import opened Strings

  datatype Role = DisplayRole | EditRole | OtherRole
  datatype Orientation = Horizontal | Vertical
  datatype ItemFlag = ItemIsEditable | ItemIsEnabled | ItemIsSelectable

  /** A QModelIndex handed out by the view. */
  datatype Pos = Pos(row: nat, column: nat)

  /** `flags`: every cell is enabled and selectable; only columns 1.. are
      editable. */
  function Flags(column: nat): (r: set<ItemFlag>)
    ensures ItemIsEditable in r <==> column >= 1
    ensures ItemIsEnabled in r && ItemIsSelectable in r
  {
    if column >= 1 then {ItemIsEditable, ItemIsEnabled, ItemIsSelectable}
    else {ItemIsEnabled, ItemIsSelectable}
  }

  /** `DelegateForTableAdditing.createEditor`: whether an editor is created
      for a cell. It agrees with the editable flag. */
  function CreatesEditor(column: nat): (r: bool)
    ensures r <==> ItemIsEditable in Flags(column)
  {
    column >= 1
  }

  /** `PushButtonDelegate.setEditorData`: the caption of the button in column 0
      of row `row`, derived from the row's current position. */
  function ButtonText(row: nat): (s: string)
    ensures |s| > |"Строка "| && s[..|"Строка "|] == "Строка "
    ensures AllDigits(s[|"Строка "|..]) && ParseDecimal(s[|"Строка "|..]) == row
    ensures |s| > |"Строка "| + 1 ==> s[|"Строка "|] != '0'
  {
    ParseDecimalInverse(row);
    var s := "Строка " + Decimal(row);
    assert s[|"Строка "|..] == Decimal(row);
    s
  }

  /** Two rows never share a button caption. */
  lemma ButtonTextInjective(i: nat, j: nat)
    requires ButtonText(i) == ButtonText(j)
    ensures i == j
  {
  }

  class TableModel {
    /** `_data`: column names, rows and index labels of the DataFrame. */
    var columns: seq<string>
    var rows: seq<seq<Cell>>
    var index: seq<int>
    /** The contents of `info.csv` and the number of times it was written. */
    var file: Csv
    var writes: nat

    function Data(): Frame
      reads this
    {
      Frame(columns, rows, index)
    }

    predicate Valid()
      reads this
    {
      Consistent(Data())
    }

    /** Built from the frame `read_csv` returned: the header gives the
        column names and the index is a fresh RangeIndex. */
    constructor (loaded: Csv)
      requires |loaded.header| >= 1 && Distinct(loaded.header)
      requires Rectangular(|loaded.header|, loaded.records)
      ensures Valid()
      ensures columns == loaded.header && rows == loaded.records
      ensures file == loaded && writes == 0
    {
      columns := loaded.header;
      rows := loaded.records;
      index := Range(|loaded.records|);
      file := loaded;
      writes := 0;
    }

    /** `rowCount`: the number of rows, one per index label. */
    function RowCount(): (n: nat)
      reads this
      requires Valid()
      ensures n == |rows| == |index|
    {
      |rows|
    }

    /** `columnCount`: the number of columns, column 0 included. */
    function ColumnCount(): (n: nat)
      reads this
      requires Valid()
      ensures n == |columns| && n >= 1
    {
      |columns|
    }

    /** `data`: the text of a cell for the display and edit roles, nothing
        for any other role. Column 0 is stored and reported like any other. */
    function CellData(row: nat, column: nat, role: Role): (r: Option<string>)
      reads this
      requires Valid() && row < |rows| && column < |columns|
      ensures r.None? <==> role == OtherRole
      ensures r.Some? ==> r.value == Str(rows[row][column])
    {
      if role == OtherRole then None else Some(Str(rows[row][column]))
    }

    /** `headerData`: the column's name horizontally, the row's index label
        vertically; since the labels are 0..n-1, row i is headed by `str(i)`. */
    function HeaderData(section: nat, orientation: Orientation, role: Role): (r: Option<string>)
      reads this
      requires Valid()
      requires orientation == Horizontal ==> section < |columns|
      requires orientation == Vertical ==> section < |rows|
      ensures role == OtherRole ==> r == None
      ensures role != OtherRole && orientation == Horizontal ==> r == Some(columns[section])
      ensures role != OtherRole && orientation == Vertical ==> r == Some(Decimal(section))
    {
      if role == OtherRole then None
      else if orientation == Horizontal then Some(columns[section])
      else Some(IntToString(index[section]))
    }

    /** `to_csv('info.csv', index=False)`: the file becomes the current table. */
    method WriteCsv()
      modifies this
      ensures file == ToCsv(Data()) && writes == old(writes) + 1
      ensures columns == old(columns) && rows == old(rows) && index == old(index)
    {
      file := ToCsv(Data());
      writes := writes + 1;
    }

    /** `setData`: writes the edited text into the cell by position (no
        column check of its own), then saves; it returns what the base
        class's `setData` returns, which is false. */
    method SetData(row: nat, column: nat, value: string) returns (ok: bool)
      requires Valid() && row < |rows| && column < |columns|
      modifies this
      ensures Valid()
      ensures Data() == SetCell(old(Data()), row, column, Text(value))
      ensures file == ToCsv(Data()) && writes == old(writes) + 1
      ensures !ok
    {
      rows := rows[row := rows[row][column := Text(value)]];
      WriteCsv();
      ok := false;
    }
  }

  /** `DelegateForTableAdditing.setEditorData`: the editor of a cell in
      columns 1.. is seeded with the cell's edit text (`EditRole`, falling
      back to `DisplayRole`, which reads the same); column 0 gets nothing. */
  function EditorText(model: TableModel, row: nat, column: nat): (r: Option<string>)
    reads model
    requires model.Valid() && row < |model.rows| && column < |model.columns|
    ensures r.Some? <==> CreatesEditor(column)
    ensures r.Some? ==> Some(r.value) == model.CellData(row, column, EditRole)
  {
    if column >= 1 then model.CellData(row, column, EditRole) else None
  }
}
