/**
 * Row edits of main/app.py: `_create_row_entry`, the core of `delete_row` and `submit_transfer`
 * of `transfer_table_between_spaces`. The random pastel colour a new row may get is a parameter.
 */
module RowEdits {
  import opened Wrappers
  import Text
  import Cards
  import Ratio
  import opened Spaces

  /** `{col: [] for col in columns}`: an empty cell for every column. */
  function EmptyCells(columns: seq<string>): (cells: Ratio.Row)
    ensures Ratio.Covers(cells, columns)
    ensures forall c :: c in cells <==> c in columns
    ensures forall c :: c in cells ==> cells[c] == []
  {
    map c | c in columns :: []
  }

  /** The space with `name` appended to its rows, with the cells `cells` and the colour `color`. */
  function AddRow(t: Table, name: string, cells: Ratio.Row, color: string): Table
  {
    t.(rows := t.rows + [name], cards := t.cards[name := cells], rowColors := t.rowColors[name := color])
  }

  /** The space without the row `name`: out of the rows, the card map and the colour map. */
  function DropRow(t: Table, name: string): Table
  {
    t.(rows := RemoveFirst(t.rows, name), cards := t.cards - {name}, rowColors := t.rowColors - {name})
  }

  /** Adding a new row that covers the columns to a space with room keeps it well formed. */
  lemma AddRowWellFormed(t: Table, name: string, cells: Ratio.Row, color: string)
    requires WellFormed(t) && |t.rows| < MaxRows && name !in t.rows
    requires Ratio.Covers(cells, t.columns)
    ensures WellFormed(AddRow(t, name, cells, color))
  {
    var t2 := AddRow(t, name, cells, color);
    forall i, j | 0 <= i < j < |t2.rows|
      ensures t2.rows[i] != t2.rows[j]
    {
      if j == |t.rows| {
        assert t2.rows[i] in t.rows;
      }
    }
  }

  /** Dropping a row keeps a space well formed. */
  lemma DropRowWellFormed(t: Table, name: string)
    requires WellFormed(t)
    ensures WellFormed(DropRow(t, name))
    ensures forall r :: r in DropRow(t, name).rows <==> r in t.rows && r != name
  {
    RemoveDistinct(t.rows, name);
  }

  /** `preferred_color or random_pastel_color()`, with the random colour given as `fallback`. */
  function ColorOr(preferred: string, fallback: string): string
  {
    if preferred != [] then preferred else fallback
  }

  /**
   * `_create_row_entry`: in the current space, a new row named by the stripped `rowName`, with an
   * empty cell per column and the colour `preferred` (or `fallback`); the new row is selected.
   */
  function CreateRowEntry(d: Document, rowName: string, preferred: string, fallback: string): Outcome
  {
    match CurrentTable(d)
    case None => Rejected(NoSpace)
    case Some(t) =>
      var name := Text.Strip(rowName);
      if name == [] then Rejected(EmptyName)
      else if |t.rows| >= MaxRows then Rejected(SpaceFull)
      else if name in t.rows then Rejected(DuplicateName)
      else
        var d2 := PutCurrent(d, AddRow(t, name, EmptyCells(t.columns), ColorOr(preferred, fallback)));
        Applied(d2, ValidSelection(d2, Some(name)))
  }

  /**
   * A row is created exactly when there is a current space, the stripped name is not empty, the
   * space has fewer than nine rows and none of that name; the first failing check gives the reason.
   * The created row comes last, with an empty cell per column and its colour, and is selected;
   * the other rows, their cards and colours, the columns, the other spaces and the document's
   * order of spaces and current space stay as they were.
   */
  lemma CreateRowEntrySpec(d: Document, rowName: string, preferred: string, fallback: string)
    ensures var o := CreateRowEntry(d, rowName, preferred, fallback);
      && (CurrentTable(d).None? ==> o == Rejected(NoSpace))
      && (CurrentTable(d).Some? ==>
            var t, name := CurrentTable(d).value, Text.Strip(rowName);
            && (name == [] ==> o == Rejected(EmptyName))
            && (name != [] && |t.rows| >= MaxRows ==> o == Rejected(SpaceFull))
            && (name != [] && |t.rows| < MaxRows && name in t.rows ==> o == Rejected(DuplicateName))
            && (name != [] && |t.rows| < MaxRows && name !in t.rows ==>
                  && o.Applied?
                  && o.selected == Some(name)
                  && CurrentTable(o.doc).Some?
                  && var t2 := CurrentTable(o.doc).value;
                  && t2.rows == t.rows + [name]
                  && t2.columns == t.columns
                  && (forall c :: c in t.columns ==> HasCell(t2, name, c) && t2.cards[name][c] == [])
                  && t2.rowColors[name] == (if preferred != [] then preferred else fallback)
                  && (forall r :: r in t.cards && r != name ==> r in t2.cards && t2.cards[r] == t.cards[r])
                  && (forall r :: r in t.rowColors && r != name ==> r in t2.rowColors && t2.rowColors[r] == t.rowColors[r])
                  && o.doc.tables.Keys == d.tables.Keys
                  && (forall n :: n in d.tables && Some(n) != d.current ==> o.doc.tables[n] == d.tables[n])
                  && o.doc.order == d.order && o.doc.current == d.current))
  {
  }

  /** Creating a row keeps the document consistent. */
  lemma CreateRowEntryConsistent(d: Document, rowName: string, preferred: string, fallback: string)
    requires Consistent(d)
    ensures var o := CreateRowEntry(d, rowName, preferred, fallback);
      o.Applied? ==> Consistent(o.doc)
  {
    var o := CreateRowEntry(d, rowName, preferred, fallback);
    if o.Applied? {
      var t, name := CurrentTable(d).value, Text.Strip(rowName);
      var t2 := AddRow(t, name, EmptyCells(t.columns), ColorOr(preferred, fallback));
      AddRowWellFormed(t, name, EmptyCells(t.columns), ColorOr(preferred, fallback));
      assert o.doc == PutCurrent(d, t2);
    }
  }

  /**
   * The core of `delete_row`: the row the user chose (`None` when the prompt was cancelled) leaves
   * the rows, the card map and the colour map; a selection of that row is cleared.
   */
  function DeleteRow(d: Document, selected: Option<string>, choice: Option<string>): Outcome
  {
    match CurrentTable(d)
    case None => Rejected(NoSpace)
    case Some(t) =>
      if t.rows == [] then Rejected(NoRows)
      else if choice.None? || choice.value == [] || choice.value !in t.rows then Rejected(UnknownRow)
      else
        var name := choice.value;
        var d2 := PutCurrent(d, DropRow(t, name));
        Applied(d2, ValidSelection(d2, if selected == Some(name) then None else selected))
  }

  /**
   * A row is deleted exactly when the current space has the chosen row. Afterwards the row is
   * gone from the rows (which otherwise keep their order), the card map and the colour map; the
   * remaining rows keep their cards and colours, the columns, the other spaces and the
   * document's order of spaces and current space stay, the selection never names the deleted
   * row, and a selection of another remaining row stays.
   */
  lemma DeleteRowSpec(d: Document, selected: Option<string>, choice: Option<string>)
    requires Consistent(d)
    ensures var o := DeleteRow(d, selected, choice);
      && (o.Applied? <==> CurrentTable(d).Some? && choice.Some? && choice.value != []
                           && choice.value in CurrentTable(d).value.rows)
      && (o.Applied? ==>
            var t, name := CurrentTable(d).value, choice.value;
            && CurrentTable(o.doc).Some?
            && var t2 := CurrentTable(o.doc).value;
            && t2.rows == RemoveFirst(t.rows, name)
            && |t2.rows| == |t.rows| - 1
            && (forall r :: r in t2.rows <==> r in t.rows && r != name)
            && t2.columns == t.columns
            && name !in t2.cards && name !in t2.rowColors
            && (forall r :: r in t2.rows ==> r in t2.cards && t2.cards[r] == t.cards[r])
            && (forall r :: r in t2.rows ==> r in t2.rowColors && t2.rowColors[r] == t.rowColors[r])
            && o.doc.tables.Keys == d.tables.Keys
            && (forall n :: n in d.tables && Some(n) != d.current ==> o.doc.tables[n] == d.tables[n])
            && o.doc.order == d.order && o.doc.current == d.current
            && o.selected != Some(name)
            && (o.selected == selected || o.selected == None)
            && (selected.Some? && selected.value in t2.rows ==> o.selected == selected)
            && Consistent(o.doc))
  {
    var o := DeleteRow(d, selected, choice);
    if o.Applied? {
      var t, name := CurrentTable(d).value, choice.value;
      DropRowWellFormed(t, name);
      assert o.doc == PutCurrent(d, DropRow(t, name));
    }
  }

  /** `desired_name`: the stripped new name, or the row's own name when that is empty. */
  function DesiredName(rowName: string, newName: string): string
  {
    var stripped := Text.Strip(newName);
    if stripped != [] then stripped else rowName
  }

  /** `{col: copy.deepcopy(source_cards.get(col, [])) for col in columns}`. */
  function CloneCells(source: Ratio.Row, columns: seq<string>): (cells: Ratio.Row)
    ensures Ratio.Covers(cells, columns)
    ensures forall c :: c in cells <==> c in columns
    ensures forall c :: c in columns && c in source ==> cells[c] == source[c]
    ensures forall c :: c in columns && c !in source ==> cells[c] == []
  {
    map c | c in columns :: if c in source then source[c] else []
  }

  /** The checks of `submit_transfer`, in order; `None` when the transfer goes ahead. */
  function TransferCheck(d: Document, source: string, dest: string, rowName: string, desired: string): Option<Reason>
  {
    if source == [] || dest == [] || rowName == [] then Some(MissingChoice)
    else if source == dest then Some(SameSpace)
    else if source !in d.tables || dest !in d.tables then Some(InvalidSpace)
    else if rowName !in d.tables[source].rows then Some(UnknownRow)
    else if |d.tables[dest].rows| >= MaxRows then Some(SpaceFull)
    else if desired in d.tables[dest].rows then Some(DuplicateName)
    else if d.tables[source].columns != d.tables[dest].columns then Some(ColumnsDiffer)
    else None
  }

  /**
   * The spaces after a transfer that passed its checks: the destination gains the row under
   * `desired`, with cells cloned per destination column and the row's colour (or `fallback`);
   * a move also drops the row from the source.
   */
  function TransferredTables(tables: map<string, Table>, source: string, dest: string, rowName: string,
                             desired: string, isMove: bool, fallback: string): map<string, Table>
    requires source in tables && dest in tables
  {
    var src, dst := tables[source], tables[dest];
    var cells := CloneCells(if rowName in src.cards then src.cards[rowName] else map[], dst.columns);
    var color := if rowName in src.rowColors then src.rowColors[rowName] else fallback;
    var added := tables[dest := AddRow(dst, desired, cells, color)];
    if isMove then added[source := DropRow(src, rowName)] else added
  }

  /**
   * `submit_transfer`: copy the row `rowName` of space `source` into space `dest` under the desired
   * name; an action other than "copy" is a move, which also drops the row from the source. A
   * selection of the moved row in the current source space is cleared; in the current destination
   * the new row is selected.
   */
  function Transfer(d: Document, selected: Option<string>, action: string, source: string, dest: string,
                    rowName: string, newName: string, fallback: string): Outcome
  {
    var desired := DesiredName(rowName, newName);
    match TransferCheck(d, source, dest, rowName, desired)
    case Some(reason) => Rejected(reason)
    case None =>
      var isMove := action != "copy";
      var d2 := d.(tables := TransferredTables(d.tables, source, dest, rowName, desired, isMove, fallback));
      var kept := if isMove && d.current == Some(source) && selected == Some(rowName) then None else selected;
      Applied(d2, ValidSelection(d2, if d.current == Some(dest) then Some(desired) else kept))
  }

  /**
   * On well-formed spaces with matching columns, a transfer adds the row last to the destination
   * with the source row's cards in every column and its colour; a move takes the row, its cards
   * and its colour out of the source, a copy leaves the source alone. The destination keeps its
   * columns and its other rows with their cards and colours; no other space changes.
   */
  lemma TransferredTablesSpec(tables: map<string, Table>, source: string, dest: string, rowName: string,
                              desired: string, isMove: bool, fallback: string)
    requires source in tables && dest in tables && source != dest
    requires WellFormed(tables[source]) && WellFormed(tables[dest])
    requires rowName in tables[source].rows && tables[source].columns == tables[dest].columns
    ensures var t2 := TransferredTables(tables, source, dest, rowName, desired, isMove, fallback);
      var src, dst := tables[source], tables[dest];
      && t2.Keys == tables.Keys
      && t2[dest].rows == dst.rows + [desired]
      && t2[dest].columns == dst.columns
      && (forall r :: r in dst.cards && r != desired ==> r in t2[dest].cards && t2[dest].cards[r] == dst.cards[r])
      && (forall r :: r in dst.rowColors && r != desired ==> r in t2[dest].rowColors && t2[dest].rowColors[r] == dst.rowColors[r])
      && (forall c :: c in dst.columns ==> HasCell(t2[dest], desired, c) && t2[dest].cards[desired][c] == src.cards[rowName][c])
      && t2[dest].rowColors[desired] == src.rowColors[rowName]
      && (!isMove ==> t2[source] == src)
      && (isMove ==> t2[source] == DropRow(src, rowName))
      && (forall n :: n in tables && n != source && n != dest ==> t2[n] == tables[n])
  {
    var src := tables[source];
    assert Ratio.Covers(src.cards[rowName], src.columns);
  }

  /** Moving a row out keeps the source well formed and removes the row with its cards and colour. */
  lemma TransferredSource(src: Table, rowName: string)
    requires WellFormed(src) && rowName in src.rows
    ensures var src2 := DropRow(src, rowName);
      rowName !in src2.rows && rowName !in src2.cards && rowName !in src2.rowColors
      && |src2.rows| == |src.rows| - 1 && WellFormed(src2)
  {
    DropRowWellFormed(src, rowName);
  }

  /** A transfer that passed its checks leaves every space well formed. */
  lemma TransferredTablesWellFormed(tables: map<string, Table>, source: string, dest: string, rowName: string,
                                    desired: string, isMove: bool, fallback: string)
    requires source in tables && dest in tables && source != dest
    requires forall n :: n in tables ==> WellFormed(tables[n])
    requires rowName in tables[source].rows && tables[source].columns == tables[dest].columns
    requires |tables[dest].rows| < MaxRows && desired !in tables[dest].rows
    ensures var t2 := TransferredTables(tables, source, dest, rowName, desired, isMove, fallback);
      forall n :: n in t2 ==> WellFormed(t2[n])
  {
    var src, dst := tables[source], tables[dest];
    assert WellFormed(src) && WellFormed(dst);
    var cells := CloneCells(src.cards[rowName], dst.columns);
    AddRowWellFormed(dst, desired, cells, src.rowColors[rowName]);
    DropRowWellFormed(src, rowName);
  }

  /**
   * A transfer goes ahead exactly when all checks pass; it then changes the spaces as
   * `TransferredTables` says, selects the new row when the destination is on screen, otherwise
   * keeps the selection or clears it (always clearing a moved row of the current source), and
   * keeps the document consistent.
   */
  lemma TransferSpec(d: Document, selected: Option<string>, action: string, source: string, dest: string,
                     rowName: string, newName: string, fallback: string)
    requires Consistent(d)
    ensures var o := Transfer(d, selected, action, source, dest, rowName, newName, fallback);
      var desired := DesiredName(rowName, newName);
      && (o.Applied? <==> TransferCheck(d, source, dest, rowName, desired).None?)
      && (o.Applied? ==>
            && o.doc.tables == TransferredTables(d.tables, source, dest, rowName, desired, action != "copy", fallback)
            && o.doc.current == d.current && o.doc.order == d.order
            && (d.current == Some(dest) ==> o.selected == Some(desired))
            && (d.current != Some(dest) ==> o.selected == selected || o.selected == None)
            && (d.current != Some(dest) && action != "copy" && d.current == Some(source) ==> o.selected != Some(rowName))
            && Consistent(o.doc))
  {
    var o := Transfer(d, selected, action, source, dest, rowName, newName, fallback);
    var desired := DesiredName(rowName, newName);
    if o.Applied? {
      assert WellFormed(d.tables[source]) && WellFormed(d.tables[dest]);
      TransferredTablesSpec(d.tables, source, dest, rowName, desired, action != "copy", fallback);
      TransferredTablesWellFormed(d.tables, source, dest, rowName, desired, action != "copy", fallback);
    }
  }
}
