/** The main window's handlers: the structural commands behind its four
    buttons, the save that follows each accepted one, the edit flow the view
    runs through the item delegates, and the row detail shown when a row's
    button is pressed. */
module Window {
  import opened Table
  import opened Strings
  import opened Grid

  /** No column name after column 0, and no value in them, holds a newline. */
  predicate NoNewlines(columns: seq<string>, row: seq<Cell>)
    requires |row| == |columns|
  {
    forall j :: 1 <= j < |columns| ==> '\n' !in columns[j] && '\n' !in Str(row[j])
  }

  /** The lines of the row detail (the list comprehension): `name = value`
      for every column but column 0, in column order. */
  function DetailLines(columns: seq<string>, row: seq<Cell>): (lines: seq<string>)
    requires |row| == |columns| >= 1
    ensures |lines| == |columns| - 1
    ensures forall i :: 0 <= i < |lines| ==> lines[i] == columns[i + 1] + " = " + Str(row[i + 1])
    ensures NoNewlines(columns, row) ==> forall i :: 0 <= i < |lines| ==> '\n' !in lines[i]
  {
    seq(|columns| - 1, i requires 0 <= i < |columns| - 1 =>
      columns[i + 1] + " = " + Str(row[i + 1]))
  }

  /** `"\n".join(info)`: the detail lines joined by newlines. Splitting the
      text at newlines gives the lines back; with column 0 alone it is empty. */
  function RowDetail(columns: seq<string>, row: seq<Cell>): (text: string)
    requires |row| == |columns| >= 1
    ensures |columns| == 1 ==> text == ""
    ensures |columns| >= 2 && NoNewlines(columns, row) ==>
              Split(text, '\n') == DetailLines(columns, row)
  {
    var lines := DetailLines(columns, row);
    if |columns| >= 2 && NoNewlines(columns, row) then
      SplitJoin(lines, '\n');
      Join(lines, '\n')
    else
      Join(lines, '\n')
  }

  class MainWindow {
    var model: TableModel

    predicate Valid()
      reads this, model
    {
      model.Valid()
    }

    /** The window loads `info.csv` into a fresh model. */
    constructor (loaded: Csv)
      requires |loaded.header| >= 1 && Distinct(loaded.header)
      requires Rectangular(|loaded.header|, loaded.records)
      ensures Valid() && fresh(model)
      ensures model.Data() == Frame(loaded.header, loaded.records, Range(|loaded.records|))
      ensures model.file == loaded && model.writes == 0
    {
      model := new TableModel(loaded);
    }

    /** The text of the message box for row `row`, read at activation time:
        one line per column except column 0, reading `name = value` in column
        order from the row as it is now (when no name or value holds a
        newline); with column 0 alone it is empty. */
    function DetailText(row: nat): (text: string)
      reads this, model
      requires Valid() && row < |model.rows|
      ensures |model.columns| == 1 ==> text == ""
      ensures |model.columns| >= 2 && NoNewlines(model.columns, model.rows[row]) ==>
                |Split(text, '\n')| == |model.columns| - 1 &&
                forall i :: 0 <= i < |model.columns| - 1 ==>
                  Split(text, '\n')[i] == model.columns[i + 1] + " = " + Str(model.rows[row][i + 1])
    {
      RowDetail(model.columns, model.rows[row])
    }

    /** `save`: the whole table is written to `info.csv`. */
    method Save()
      requires Valid()
      modifies model
      ensures Valid() && model.Data() == old(model.Data())
      ensures model.file == ToCsv(model.Data()) && model.writes == old(model.writes) + 1
    {
      model.WriteCsv();
    }

    /** `add_row`: a NaN row is appended under label `len(df)`, then saved. */
    method AddRow()
      requires Valid()
      modifies model
      ensures Valid()
      ensures model.Data() == Table.AddRow(old(model.Data()))
      ensures model.file == ToCsv(model.Data()) && model.writes == old(model.writes) + 1
    {
      var f := LocSetRow(model.Data(), |model.rows|);
      model.rows, model.index := f.rows, f.index;
      Save();
    }

    /** `add_col`: the column named `name` (the text field's content) is set
        to NaN, appended when new, then saved. */
    method AddCol(name: string)
      requires Valid()
      modifies model
      ensures Valid()
      ensures model.Data() == AddColumn(old(model.Data()), name)
      ensures model.file == ToCsv(model.Data()) && model.writes == old(model.writes) + 1
    {
      var f := LocSetColumn(model.Data(), name);
      model.columns, model.rows := f.columns, f.rows;
      Save();
    }

    /** `delete_row`: with no selection nothing happens; otherwise the row of
        the first selected index is dropped, the index is reset and the table
        saved. Each later row's detail moves up one place with it. */
    method DeleteRow(selected: seq<Pos>)
      requires Valid()
      requires |selected| > 0 ==>
                 selected[0].row < |model.rows| && selected[0].column < |model.columns|
      modifies model
      ensures Valid()
      ensures |selected| == 0 ==>
                model.Data() == old(model.Data()) &&
                model.file == old(model.file) && model.writes == old(model.writes)
      ensures |selected| > 0 ==>
                model.Data() == Table.DeleteRow(old(model.Data()), selected[0].row) &&
                model.file == ToCsv(model.Data()) && model.writes == old(model.writes) + 1
      ensures |selected| > 0 ==>
                forall i :: selected[0].row <= i < |model.rows| ==>
                  DetailText(i) == old(DetailText(i + 1))
    {
      if |selected| > 0 {
        var pos := selected[0];
        ghost var before := model.Data();
        assert model.index[pos.row] == pos.row;
        var f := DropRowLabel(model.Data(), pos.row);
        model.rows, model.index := f.rows, f.index;
        f := ResetIndex(model.Data());
        model.index := f.index;
        assert model.Data() == Table.DeleteRow(before, pos.row);
        Save();
      }
    }

    /** `delete_col`: with no selection nothing happens; a first selected
        index in column 0 is refused before anything is changed or saved;
        otherwise the column with that index's name is dropped and the table
        saved. */
    method DeleteCol(selected: seq<Pos>)
      requires Valid()
      requires |selected| > 0 ==>
                 selected[0].row < |model.rows| && selected[0].column < |model.columns|
      modifies model
      ensures Valid()
      ensures (|selected| == 0 || selected[0].column == 0) ==>
                model.Data() == old(model.Data()) &&
                model.file == old(model.file) && model.writes == old(model.writes)
      ensures |selected| > 0 && selected[0].column >= 1 ==>
                model.Data() == DeleteColumn(old(model.Data()), selected[0].column) &&
                model.file == ToCsv(model.Data()) && model.writes == old(model.writes) + 1
    {
      if |selected| > 0 {
        var pos := selected[0];
        if pos.column == 0 {
          return;
        }
        ghost var before := model.Data();
        var f := DropColumnLabel(model.Data(), model.columns[pos.column]);
        model.columns, model.rows := f.columns, f.rows;
        assert model.Data() == DeleteColumn(before, pos.column);
        Save();
      }
    }

    /** A committed edit in the view: the text delegate opens an editor only
        on columns 1.. and passes the text to `setData`; column 0 carries the
        button delegate, whose `setModelData` writes nothing. */
    method EditCell(row: nat, column: nat, value: string)
      requires Valid() && row < |model.rows| && column < |model.columns|
      modifies model
      ensures Valid()
      ensures column == 0 ==>
                model.Data() == old(model.Data()) &&
                model.file == old(model.file) && model.writes == old(model.writes)
      ensures column >= 1 ==>
                model.Data() == SetCell(old(model.Data()), row, column, Text(value)) &&
                model.CellData(row, column, DisplayRole) == Some(value) &&
                model.file == ToCsv(model.Data()) && model.writes == old(model.writes) + 1
    {
      if CreatesEditor(column) {
        var _ := model.SetData(row, column, value);
      }
    }
  }

  /** A session on a two-row table: add a column, edit a cell in it and read
      the edited row's detail. */
  method EditSession() {
    var w := new MainWindow(Csv(["id"], [[Text("1")], [Text("2")]]));
    w.AddCol("Nov");
    assert w.model.columns == ["id", "Nov"];
    assert w.model.rows[1] == [Text("2"), Empty];
    w.EditCell(0, 1, "x");
    assert w.model.rows[0] == [Text("1"), Text("x")];
    assert w.DetailText(0) == "Nov = x";
  }

  /** The same table afterwards: deleting column 0 is refused, deleting the
      first row moves the second up and re-labels it 0. */
  method DeleteSession() {
    var w := new MainWindow(Csv(["id", "Nov"], [[Text("1"), Text("x")], [Text("2"), Empty]]));
    w.DeleteCol([Pos(0, 0)]);
    assert w.model.columns == ["id", "Nov"] && w.model.writes == 0;
    w.DeleteRow([Pos(0, 1)]);
    assert w.model.rows == [[Text("2"), Empty]] && w.model.index == [0];
    assert w.model.file.records == [[Text("2"), Empty]];
  }
}
