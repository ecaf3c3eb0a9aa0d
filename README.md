# Table editor model

A Dafny model of a small PyQt table editor (`main.py`). The editor loads
`info.csv` into a pandas DataFrame, shows it in a `QTableView` through a
`QAbstractTableModel` subclass (`TableModel`), and writes the whole table back
to `info.csv` after every edit and every structural change. Column 0 is a
real stored column (the first CSV column); the view covers it with one push
button per row ("Строка i"), whose click opens a message box listing the row's
other columns as `name = value` lines. Cells in columns 1.. are edited in
place; the window's buttons add a row, add a column (named from a text
field), delete the first selected row or delete the first selected column,
and column 0 cannot be deleted.

Modules:

- `Strings` (strings.dfy): Python's `str` of an integer and `"\n".join`, each
  with an independent inverse (`ParseDecimal`, `Split`) and a round-trip lemma.
- `Table` (table.dfy): the DataFrame as a value (`Frame`: column names, rows of
  `Cell = Empty | Text(string)`, index labels). pandas works by LABEL:
  `loc[len(df)] = nan`, `loc[:, name] = nan`, `drop(index=[r])`,
  `drop(columns[[c]], axis=1)`. `LocSetRow`, `LocSetColumn`, `DropRowLabel`
  and `DropColumnLabel` model those label operations. The two drops require
  the label to be present, because pandas raises `KeyError` otherwise. `AddRow`,
  `AddColumn`, `DeleteRow` and `DeleteColumn` prove what the window gets from
  them: under the invariant `Consistent`, each label operation acts on the
  intended position. `Consistent` says the labels are 0..n-1, the column names
  are distinct and column 0 exists.
- `Grid` (grid.dfy): `class TableModel` holds the DataFrame fields and, as
  fields standing for the file, the contents of `info.csv` (`file`) and how
  often it was written (`writes`). The module also holds `flags`, the
  editor gate of the text delegate and the caption of the button delegate.
- `Window` (window.dfy): `class MainWindow` with the four structural handlers,
  `save`, the edit flow through the delegates and the row-detail text.
  `EditSession` and `DeleteSession` are clients of these contracts, in the
  manner of smoke tests: they add a column, edit a cell and read the row
  detail, then have a column-0 delete refused and delete a row, asserting the
  table and file after each step. They have no contract of their own and
  model no single line of `main.py`.

Every accepted mutation leaves `file == ToCsv(table)` and raises `writes` by
exactly one. Every refused or empty command leaves the table, `file` and
`writes` unchanged. `Consistent` holds after every operation.

Three points where the code behaves differently from what the user
interface suggests; the model follows the code:

- Column 0 is stored and reported by `data()` like any other column. It is
  protected by the editor gate and by the `delete_col` guard. Its content is
  not synthesised.
- Adding a column whose name already exists does not create a duplicate. The
  label assignment overwrites that column with NaN (`AddColumn`), even when
  it is column 0. Names therefore stay distinct: `read_csv` renames
  duplicate headers, and nothing else can create one.
- No command reports an out-of-range or protected-column error. Qt only
  hands out valid indexes, so the model takes them as preconditions.
  Deleting column 0 and deleting with nothing selected return silently,
  without a save.

## Model

| member | source | states |
|---|---|---|
| `Grid.Flags` | main.py:39-43 | a cell is editable exactly when its column is 1 or more; every cell is enabled and selectable |
| `Grid.CreatesEditor` | main.py:58-62 | the text delegate creates an editor exactly where the flags say the cell is editable, i.e. never in column 0 |
| `Grid.EditorText` | main.py:65-68 | the editor is seeded with the cell's current text exactly when an editor is created; column 0 gets no editor text |
| `Grid.ButtonText` | main.py:91-92 | the button of row r reads "Строка " followed by the canonical numeral of r: digits that parse back to r, with no leading zero |
| `Grid.ButtonTextInjective` | main.py:92 | two rows never get the same button caption |
| `Grid.TableModel.CellData` | main.py:17-20 | display and edit roles give the cell's `str` text (NaN as "nan"), any other role gives nothing |
| `Grid.TableModel.RowCount` | main.py:23-24 | the row count equals the number of rows and of index labels |
| `Grid.TableModel.ColumnCount` | main.py:27-28 | the column count equals the number of column names and is at least 1 |
| `Grid.TableModel.HeaderData` | main.py:31-36 | horizontal headers are the column names; the vertical header of row i is `str(i)`, because the labels stay 0..n-1 |
| `Grid.TableModel.constructor` | main.py:11-14 | the model wraps the loaded frame with a fresh 0..n-1 index; the file holds what was loaded and nothing was written yet |
| `Grid.TableModel.WriteCsv` | main.py:49 | `info.csv` becomes header plus rows of the current table (no index) and the write count rises by one; the table is unchanged |
| `Grid.TableModel.SetData` | main.py:46-50 | only cell (r, c) changes, to the written text; names, labels and all other cells are kept; the table is saved once; the result is false |
| `Table.SetCell` | main.py:47 | a positional write changes exactly one cell and keeps the shape, the names, the labels and the invariant |
| `Table.AddRow` | main.py:187-191 | assigning NaN under label `len(df)` appends one row, all NaN, with label equal to the old row count; earlier rows and the columns are unchanged; the invariant holds |
| `Table.AddColumn` | main.py:193-197 | assigning NaN under a column name: a fresh name is appended last with NaN in every row and other cells kept; an existing name's column is overwritten with NaN instead; row count and labels are unchanged |
| `Table.Str` | main.py:20 | definition: NaN displays as "nan" and text as itself; what a view reads through it is stated by `Grid.TableModel.CellData` and `Window.MainWindow.EditCell` |
| `Table.ToCsv` | main.py:230 | definition: the file holds the header and the rows, but not the index labels (`index=False`); every save is stated against it |
| `Table.LocSetRow` | main.py:189 | assigning NaN under a row label: an absent label appends a NaN row under it; a present label turns the rows carrying it into NaN rows and keeps the rest |
| `Table.LocSetColumn` | main.py:195 | assigning NaN under a column name: an absent name is appended with NaN in every row; a present name turns its cells into NaN and keeps the rest |
| `Table.Drop` | main.py:206 | the filter behind `drop`: one entry goes per occurrence of the key (none for an absent key); a single entry goes exactly when its key is k |
| `Table.DropAppend` | main.py:206 | the filter works entry by entry: dropping from two concatenated halves drops from each half, so survivors keep their order |
| `Table.DropRowLabel` | main.py:206 | dropping a row label that exists keeps a well-formed frame: rows and labels are the `Drop` filter by that label, one row goes per occurrence, the label is gone and the columns are kept; with distinct labels exactly its position goes |
| `Table.ResetIndex` | main.py:207 | definition: `reset_index(drop=True)` re-labels the rows 0..n-1 and keeps rows and columns; the re-packed labels after a delete are stated by `Table.DeleteRow` |
| `Table.DropColumnLabel` | main.py:223 | dropping a column name that exists keeps a well-formed frame: the header and every row are the `Drop` filter by that name, one column goes per occurrence, the name is gone and rows and labels are kept; with distinct names exactly its position goes from the header and from every row |
| `Table.DropDistinct` | main.py:206 | with distinct labels, dropping a label removes exactly the position holding it |
| `Table.DropAtUnique` | main.py:223 | dropping a label carried only by position p removes exactly position p |
| `Table.DeleteRow` | main.py:199-210 | dropping label r (the selected position) and resetting the index: the row count drops by one; earlier rows stay; row i > r moves to i-1; columns are unchanged; labels are re-packed to 0..n-2 |
| `Table.AddRowThenDeleteRow` | main.py:187-210 | deleting the row just added gives back the original table |
| `Table.AddColumnThenDeleteColumn` | main.py:193-226 | deleting the fresh column just added gives back the original table |
| `Table.SetCellUndo` | main.py:47 | writing a cell's previous value back undoes an edit |
| `Table.DeleteColumn` | main.py:212-226 | dropping by the name of column c: exactly column c (c >= 1) is removed from the names and from every row; the rest keep their order; column 0 stays first; rows and labels are unchanged |
| `Window.MainWindow.constructor` | main.py:148-151 | the window's model holds the loaded table with labels 0..n-1 |
| `Window.MainWindow.Save` | main.py:228-230 | the table is written once and left unchanged |
| `Window.MainWindow.AddRow` | main.py:187-191 | the table becomes `Table.AddRow` of the old one and is saved once |
| `Window.MainWindow.AddCol` | main.py:193-197 | the table becomes `Table.AddColumn` of the old one with the text field's name and is saved once |
| `Window.MainWindow.DeleteRow` | main.py:199-210 | no selection: nothing changes and nothing is written; otherwise the first selected row is deleted, the table is saved once, and each later row's detail text moves up one place |
| `Window.MainWindow.DeleteCol` | main.py:212-226 | no selection, or column 0 selected: nothing changes and nothing is written; otherwise the first selected column is deleted and the table is saved once |
| `Window.MainWindow.EditCell` | main.py:58-62 | committing an edit in column 0 (no text editor there; the button delegate's `setModelData` at main.py:94-95 writes nothing) changes and writes nothing; in column c >= 1 the cell afterwards reads back the written text and the table is saved once |
| `Window.DetailLines` | main.py:175 | one `name = value` line for each column after column 0, in column order |
| `Window.RowDetail` | main.py:176 | when no column name after column 0 and no value in them holds a newline, the newline-joined text splits back into the detail lines; with column 0 alone the text is empty |
| `Window.MainWindow.DetailText` | main.py:173-176 | the message of row r, read from the row as it is now: when no column name after column 0 and no value in them holds a newline, one `name = value` line per column except column 0, in column order; empty with column 0 alone |
| `Strings.Decimal` | main.py:36 | `str(n)` is a non-empty string of digits with no leading zero |
| `Strings.IntToString` | main.py:36 | `str(i)` is the canonical numeral of i: a '-' prefix when i is negative, then digits with no leading zero that parse back to the absolute value of i |
| `Strings.ParseDecimalInverse` | main.py:92 | reading back the numeral of n gives n |
| `Strings.DecimalInjective` | main.py:36 | distinct labels have distinct numerals |
| `Strings.Join` | main.py:176 | `sep.join`: the text starts with the first line; what it means is stated by `Strings.SplitJoin`, `Strings.JoinSeparators` and `Window.RowDetail` |
| `Strings.JoinSeparators` | main.py:176 | when no line holds the separator, the joined text holds exactly one separator per pair of neighbouring lines |
| `Strings.SplitJoin` | main.py:176 | splitting the newline-joined lines at newlines gives the lines back when no line holds a newline |

## Left out

- Qt widgets, layout, signals and slots, `layoutChanged`, `clearSelection`,
  painting the buttons and showing the message box (and its title
  "Индекс r"): display plumbing with no effect on the table.
- The selection-changed debug hook and the `print` calls: diagnostic output only.
- The `KeyError` that `drop` raises for a label or name no row or column
  carries: `DropRowLabel` and `DropColumnLabel` require the label to be
  present. The window always passes a selected position, which is a present
  label because the labels stay 0..n-1 and the names are distinct.
- Table.Drop, Table.DropRowLabel, Table.DropColumnLabel: for a label or name
  that occurs more than once, the contracts give the number of entries
  removed, the absence of the label afterwards and the tie to the `Drop`
  filter, but no positional formula for the survivors. `Drop`'s survivors are
  fixed only through `DropAppend` and its single-entry case. The window never
  meets that case: `Consistent` keeps labels and names distinct, and there
  `DropAtUnique` states exactly which position goes.
- Window.RowDetail / Window.MainWindow.DetailText: when a column name after
  column 0, or a value in such a column, holds a newline, the message's lines
  no longer match the columns, and the contracts state nothing about it
  beyond the one-column case. The column name comes from a multi-line text
  field and a quoted CSV field may hold a newline, so this case is reachable.
- Reading `info.csv` with `read_csv`: the constructors take the parsed table.
  They require what `read_csv` delivers here: at least one column, distinct
  names (pandas renames duplicate headers) and rows as wide as the header.
- The CSV text format of `to_csv`: `file` holds the written table as a value.
  NaN written as an empty field, and read back as NaN, is not modelled. A
  write failure is not modelled either; every write succeeds.
- Numeric cell values and pandas' `str` formatting of them: values are opaque
  text, and `Empty` stands for NaN and displays as "nan".
- Cancelling an edit: it never reaches `setData`, so it is the absence of an
  `EditCell` call.
- Process startup and the event loop.
