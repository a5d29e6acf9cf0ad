/**
 * `CardApp` of main/app.py, without its widgets: the document, the selected row, the two
 * history stacks, the bin, and the delete, mark and move modes of the board. Each method changes
 * these fields as the source does; the new document of an edit is computed by the functions of
 * rows.dfy, cardedits.dfy and spaceedits.dfy, and the history moves as history.dfy says.
 */
module App {
  import opened Wrappers
  import Text
  import Cards
  import Structure
  import opened Spaces
  import History
  import RowEdits
  import CardEdits
  import SpaceEdits

  /** The fields no edit of the document touches: the bin and the modes of the board. */
  datatype Extras = Extras(bin: seq<History.BinEntry>, deleteMode: bool, markMode: bool,
                           movingCard: Option<(string, string, string)>)

  /** The card `front` is in cell (`row`, `col`) of the current space, where a click found it. */
  predicate CardShown(d: Document, row: string, col: string, front: string)
  {
    CurrentTable(d).Some? && HasCell(CurrentTable(d).value, row, col)
    && Cards.FindCard(CurrentTable(d).value.cards[row][col], front).Some?
  }

  /** Cell (`row`, `col`) is in the card map of the current space. */
  predicate HasTarget(d: Document, row: string, col: string)
  {
    CurrentTable(d).Some? && HasCell(CurrentTable(d).value, row, col)
  }

  /** The reason of a rejected edit, which the source shows as an error; `None` when it went ahead. */
  function ErrorOf(o: Outcome): (e: Option<Reason>)
    ensures e.Some? <==> o.Rejected?
    ensures o.Rejected? ==> e == Some(o.reason)
  {
    if o.Rejected? then Some(o.reason) else None
  }

  /** The loop of `new_table` that adds the planned rows, each with an empty cell per column and its colour. */
  method BuildSpace(columns: seq<string>, pending: seq<string>, colors: seq<string>) returns (table: Table)
    requires |colors| == |pending|
    ensures table == SpaceEdits.NewSpace(columns, pending, colors)
  {
    table := Table([], columns, map[], map[]);
    ghost var empty := table;
    var i := 0;
    while i < |pending|
      invariant 0 <= i <= |pending|
      invariant table == SpaceEdits.AddRows(empty, pending[..i], colors[..i])
    {
      SpaceEdits.AddRowsStep(empty, pending, colors, i);
      var rowName := pending[i];
      table := table.(rows := table.rows + [rowName], cards := table.cards[rowName := RowEdits.EmptyCells(columns)],
                      rowColors := table.rowColors[rowName := colors[i]]);
      i := i + 1;
    }
    assert pending[..i] == pending && colors[..i] == colors;
  }

  class CardApp {
    var data: Document
    var selectedRowName: Option<string>
    var history: seq<History.Snapshot>
    var future: seq<History.Snapshot>
    var binHistory: seq<History.BinEntry>
    var deleteMode: bool
    var markMode: bool
    var movingCard: Option<(string, string, string)>
    const maxHistory: nat := History.MaxHistory

    /** The fields history saves and restores. */
    function State(): History.Session
      reads this
    {
      History.Session(data, selectedRowName, history, future)
    }

    function Extra(): Extras
      reads this
    {
      Extras(binHistory, deleteMode, markMode, movingCard)
    }

    /** Both stacks within `max_history`, the bin within 100, and never delete and mark mode at once. */
    ghost predicate Valid()
      reads this
    {
      History.Bounded(State()) && |binHistory| <= History.MaxBin && !(deleteMode && markMode)
    }

    /**
     * The state after `__init__` (main/app.py:78-96) with the stored bin `storedBin`, of which it
     * keeps the last 100 entries. `loaded` is the document as `load_data_or_create_new_table`
     * (main/app.py:298-317) leaves it: read from disk, old cards converted, `tables` and
     * `current_table` defaulted, a first space opened with `new_table(skip_history=True)` when there
     * is none, and `current_table` set to the first space when it was `None`. Those fix-ups are
     * not part of the constructor; the stacks are empty, as `_reset_history` leaves them.
     */
    constructor(loaded: Document, storedBin: seq<History.BinEntry>)
      ensures Valid()
      ensures State() == History.Session(loaded, None, [], [])
      ensures |binHistory| == if |storedBin| < History.MaxBin then |storedBin| else History.MaxBin
      ensures forall i :: 0 <= i < |binHistory| ==> binHistory[i] == storedBin[|storedBin| - |binHistory| + i]
      ensures !deleteMode && !markMode && movingCard == None
    {
      data := loaded;
      selectedRowName := None;
      history := [];
      future := [];
      binHistory := if |storedBin| > History.MaxBin then storedBin[|storedBin| - History.MaxBin..] else storedBin;
      deleteMode := false;
      markMode := false;
      movingCard := None;
    }

    /** `_capture_history_state`. */
    method CaptureHistoryState() returns (snapshot: History.Snapshot)
      ensures snapshot == History.Capture(State())
      ensures snapshot.data == data && snapshot.selected == selectedRowName
    {
      snapshot := History.Snapshot(data, selectedRowName);
    }

    /** `_record_history`. */
    method RecordHistory()
      requires Valid()
      modifies this
      ensures Valid()
      ensures State() == History.Record(old(State()))
      ensures Extra() == old(Extra())
    {
      var snapshot := CaptureHistoryState();
      history := history + [snapshot];
      if |history| > maxHistory {
        history := history[1..];
      }
      future := [];
    }

    /** `ensure_row_selection_valid`. */
    method EnsureRowSelectionValid()
      requires Valid()
      modifies this
      ensures Valid()
      ensures selectedRowName == ValidSelection(data, old(selectedRowName))
      ensures data == old(data) && history == old(history) && future == old(future)
      ensures Extra() == old(Extra())
    {
      var tableData := CurrentTable(data);
      if tableData.None? {
        selectedRowName := None;
        return;
      }
      if tableData.value.rows == [] {
        selectedRowName := None;
        return;
      }
      if selectedRowName.None? || selectedRowName.value !in tableData.value.rows {
        selectedRowName := None;
      }
    }

    /** `_apply_history_state` (saving and redrawing left out). */
    method ApplyHistoryState(state: History.Snapshot)
      requires Valid()
      modifies this
      ensures Valid()
      ensures State() == History.ApplyState(old(State()), state)
      ensures Extra() == old(Extra())
    {
      data := state.data;
      selectedRowName := state.selected;
      EnsureRowSelectionValid();
    }

    /** `undo_action`. */
    method UndoAction()
      requires Valid()
      modifies this
      ensures Valid()
      ensures State() == History.Undo(old(State()))
      ensures Extra() == old(Extra())
    {
      if history == [] {
        return;
      }
      var current := CaptureHistoryState();
      future := future + [current];
      if |future| > maxHistory {
        future := future[1..];
      }
      var state := history[|history| - 1];
      history := history[..|history| - 1];
      ApplyHistoryState(state);
    }

    /** `redo_action`. */
    method RedoAction()
      requires Valid()
      modifies this
      ensures Valid()
      ensures State() == History.Redo(old(State()))
      ensures Extra() == old(Extra())
    {
      if future == [] {
        return;
      }
      var current := CaptureHistoryState();
      history := history + [current];
      if |history| > maxHistory {
        history := history[1..];
      }
      var state := future[|future| - 1];
      future := future[..|future| - 1];
      ApplyHistoryState(state);
    }

    /** `_reset_history`. */
    method ResetHistory()
      requires Valid()
      modifies this
      ensures Valid()
      ensures State() == History.Reset(old(State()))
      ensures Extra() == old(Extra())
    {
      history := [];
      future := [];
    }

    /** `add_snapshot_to_bin`, with the time stamp as a parameter. */
    method AddSnapshotToBin(stamp: string)
      requires Valid()
      modifies this
      ensures Valid()
      ensures binHistory == History.AddToBin(old(binHistory), stamp, data)
      ensures State() == old(State())
      ensures deleteMode == old(deleteMode) && markMode == old(markMode) && movingCard == old(movingCard)
    {
      var entry := History.BinEntry(stamp, data);
      binHistory := binHistory + [entry];
      if |binHistory| > History.MaxBin {
        binHistory := binHistory[|binHistory| - History.MaxBin..];
      }
    }

    /** `toggle_delete_mode`: switching delete mode on switches mark mode off. */
    method ToggleDeleteMode()
      requires Valid()
      modifies this
      ensures Valid()
      ensures deleteMode == !old(deleteMode)
      ensures markMode == (old(markMode) && !deleteMode)
      ensures State() == old(State()) && binHistory == old(binHistory) && movingCard == old(movingCard)
    {
      deleteMode := !deleteMode;
      if deleteMode && markMode {
        markMode := false;
      }
    }

    /** `toggle_mark_mode`: switching mark mode on switches delete mode off. */
    method ToggleMarkMode()
      requires Valid()
      modifies this
      ensures Valid()
      ensures markMode == !old(markMode)
      ensures deleteMode == (old(deleteMode) && !markMode)
      ensures State() == old(State()) && binHistory == old(binHistory) && movingCard == old(movingCard)
    {
      markMode := !markMode;
      if markMode && deleteMode {
        deleteMode := false;
      }
    }

    /** `cancel_operations`: delete mode ends and a picked-up card is put down. */
    method CancelOperations()
      requires Valid()
      modifies this
      ensures Valid()
      ensures !deleteMode && movingCard == None && markMode == old(markMode)
      ensures State() == old(State()) && binHistory == old(binHistory)
    {
      if deleteMode {
        deleteMode := false;
      }
      if movingCard.Some? {
        movingCard := None;
      }
    }

    /**
     * The pattern every edit follows: a rejected edit changes nothing; an applied one records
     * history, then takes the new document and selection.
     */
    method ApplyEdit(o: Outcome) returns (applied: bool)
      requires Valid()
      modifies this
      ensures Valid()
      ensures applied <==> o.Applied?
      ensures State() == History.Commit(old(State()), o)
      ensures Extra() == old(Extra())
    {
      if o.Rejected? {
        return false;
      }
      RecordHistory();
      data := o.doc;
      selectedRowName := o.selected;
      return true;
    }

    /** `_create_row_entry`: returns whether the row was made and, if not, why. */
    method CreateRowEntry(rowName: string, preferred: string, fallback: string) returns (ok: bool, error: Option<Reason>)
      requires Valid()
      modifies this
      ensures Valid()
      ensures var o := RowEdits.CreateRowEntry(old(data), rowName, preferred, fallback);
        && State() == History.Commit(old(State()), o) && ok == o.Applied? && error == ErrorOf(o)
      ensures Extra() == old(Extra())
    {
      var o := RowEdits.CreateRowEntry(data, rowName, preferred, fallback);
      ok := ApplyEdit(o);
      error := ErrorOf(o);
    }

    /** `delete_row`, with the row chosen in its prompt. */
    method DeleteRow(choice: Option<string>)
      requires Valid()
      modifies this
      ensures Valid()
      ensures State() == History.Commit(old(State()), RowEdits.DeleteRow(old(data), old(selectedRowName), choice))
      ensures Extra() == old(Extra())
    {
      var o := RowEdits.DeleteRow(data, selectedRowName, choice);
      var _ := ApplyEdit(o);
    }

    /** `submit_transfer` of `transfer_table_between_spaces`; `fallback` is the colour for a row without one. */
    method SubmitTransfer(action: string, source: string, dest: string, rowName: string, newName: string,
                          fallback: string) returns (error: Option<Reason>)
      requires Valid()
      modifies this
      ensures Valid()
      ensures var o := RowEdits.Transfer(old(data), old(selectedRowName), action, source, dest, rowName, newName, fallback);
        State() == History.Commit(old(State()), o) && error == ErrorOf(o)
      ensures Extra() == old(Extra())
    {
      var o := RowEdits.Transfer(data, selectedRowName, action, source, dest, rowName, newName, fallback);
      var _ := ApplyEdit(o);
      error := ErrorOf(o);
    }

    /** `adjust_card_weight`. */
    method AdjustCardWeight(row: string, col: string, front: string, delta: real)
      requires Valid()
      modifies this
      ensures Valid()
      ensures State() == History.Commit(old(State()),
                                         CardEdits.AdjustWeight(old(data), old(selectedRowName), row, col, front, delta))
      ensures Extra() == old(Extra())
    {
      var o := CardEdits.AdjustWeight(data, selectedRowName, row, col, front, delta);
      var _ := ApplyEdit(o);
    }

    /** `add_card_to_row_by_name`, with the name typed into its prompt. */
    method AddCardToRowByName(rowName: string, entered: Option<string>)
      requires Valid()
      modifies this
      ensures Valid()
      ensures State() == History.Commit(old(State()), CardEdits.AddCard(old(data), old(selectedRowName), rowName, entered))
      ensures Extra() == old(Extra())
    {
      var o := CardEdits.AddCard(data, selectedRowName, rowName, entered);
      var _ := ApplyEdit(o);
    }

    /** `move_card_between_columns` (the drag and drop of a card). */
    method MoveCardBetweenColumns(sourceRow: string, sourceCol: string, front: string, targetRow: string,
                                  targetCol: string)
      requires Valid()
      modifies this
      ensures Valid()
      ensures State() == History.Commit(old(State()),
        CardEdits.MoveCardBetweenColumns(old(data), old(selectedRowName), sourceRow, sourceCol, front, targetRow, targetCol))
      ensures Extra() == old(Extra())
    {
      var o := CardEdits.MoveCardBetweenColumns(data, selectedRowName, sourceRow, sourceCol, front, targetRow, targetCol);
      var _ := ApplyEdit(o);
    }

    /**
     * `on_card_click`: nothing for a card that is not there; in mark mode the card's mark flips;
     * in delete mode the card goes and delete mode ends; otherwise the card is picked up, or, with
     * a card already picked up, that card is dropped into the clicked card's cell.
     */
    method OnCardClick(row: string, col: string, front: string)
      requires Valid()
      modifies this
      ensures Valid()
      ensures !CardShown(old(data), row, col, front) ==> State() == old(State()) && Extra() == old(Extra())
      ensures CardShown(old(data), row, col, front) && old(markMode) ==>
        && State() == History.Commit(old(State()), CardEdits.ToggleMark(old(data), old(selectedRowName), row, col, front))
        && Extra() == old(Extra())
      ensures CardShown(old(data), row, col, front) && !old(markMode) && old(deleteMode) ==>
        && State() == History.Commit(old(State()), CardEdits.DeleteCard(old(data), old(selectedRowName), row, col, front))
        && Extra() == old(Extra()).(deleteMode := false)
      ensures CardShown(old(data), row, col, front) && !old(markMode) && !old(deleteMode) && old(movingCard).None? ==>
        && State() == old(State())
        && Extra() == old(Extra()).(movingCard := Some((row, col, front)))
      ensures CardShown(old(data), row, col, front) && !old(markMode) && !old(deleteMode) && old(movingCard).Some? ==>
        var o := CardEdits.DropOnCard(old(data), old(selectedRowName), old(movingCard).value, row, col, front);
        && State() == History.Commit(old(State()), o)
        && Extra() == old(Extra()).(movingCard := if o.Applied? then None else old(movingCard))
    {
      if !CardShown(data, row, col, front) {
        return;
      }
      if markMode {
        var o := CardEdits.ToggleMark(data, selectedRowName, row, col, front);
        var _ := ApplyEdit(o);
        return;
      }
      if deleteMode {
        var o := CardEdits.DeleteCard(data, selectedRowName, row, col, front);
        var _ := ApplyEdit(o);
        deleteMode := false;
      } else if movingCard.None? {
        movingCard := Some((row, col, front));
      } else {
        var o := CardEdits.DropOnCard(data, selectedRowName, movingCard.value, row, col, front);
        var applied := ApplyEdit(o);
        if applied {
          movingCard := None;
        }
      }
    }

    /**
     * `on_column_click`: with a card picked up, that card is dropped into the clicked cell. When
     * the cell is missing from the card map the card has already left its own cell, and it stays
     * picked up.
     */
    method OnColumnClick(row: string, col: string)
      requires Valid()
      modifies this
      ensures Valid()
      ensures old(movingCard).None? ==> State() == old(State()) && Extra() == old(Extra())
      ensures old(movingCard).Some? ==>
        var o := CardEdits.DropOnColumn(old(data), old(selectedRowName), old(movingCard).value, row, col);
        && State() == History.Commit(old(State()), o)
        && Extra() == old(Extra()).(movingCard := if o.Applied? && HasTarget(old(data), row, col) then None
                                                  else old(movingCard))
    {
      if movingCard.None? {
        return;
      }
      var target := HasTarget(data, row, col);
      var o := CardEdits.DropOnColumn(data, selectedRowName, movingCard.value, row, col);
      var applied := ApplyEdit(o);
      if applied && target {
        movingCard := None;
      }
    }

    /** The editor of `on_card_right_click` closing with the text `text`. */
    method CloseBackEditor(row: string, col: string, front: string, text: string)
      requires Valid()
      modifies this
      ensures Valid()
      ensures State() == History.Commit(old(State()), CardEdits.SetBack(old(data), old(selectedRowName), row, col, front, text))
      ensures Extra() == old(Extra())
    {
      var o := CardEdits.SetBack(data, selectedRowName, row, col, front, text);
      var _ := ApplyEdit(o);
    }

    /**
     * The submit of `new_table`: the planned rows `pending` are added one by one, each with an
     * empty cell per generated column and its colour from `colors`.
     */
    method NewTable(nameText: string, colsText: string, pending: seq<string>, colors: seq<string>,
                    skipHistory: bool) returns (created: bool, error: Option<Reason>)
      requires Valid() && |colors| == |pending|
      modifies this
      ensures Valid()
      ensures var o := SpaceEdits.NewTable(old(data), nameText, colsText, pending, colors);
        && created == o.Applied? && error == ErrorOf(o)
        && State() == if skipHistory then History.Adopt(old(State()), o) else History.Commit(old(State()), o)
      ensures Extra() == old(Extra())
    {
      error := SpaceEdits.NewTableCheck(data, nameText, colsText);
      if error.Some? {
        return false, error;
      }
      var tableName := Text.Strip(nameText);
      var columns := Structure.GenerateColumns(Text.DigitsValue(Text.Strip(colsText)));
      if !skipHistory {
        RecordHistory();
      }
      var table := BuildSpace(columns, pending, colors);
      data := Document(data.tables[tableName := table], data.order + [tableName], Some(tableName));
      selectedRowName := if pending != [] then Some(pending[0]) else None;
      created := true;
    }

    /** The core of `delete_table_via_menu`, with the chosen space and the confirmation. */
    method DeleteTableViaMenu(choice: Option<string>, confirmed: bool)
      requires Valid()
      modifies this
      ensures Valid()
      ensures State() == History.Commit(old(State()), SpaceEdits.DeleteTable(old(data), choice, confirmed))
      ensures Extra() == old(Extra())
    {
      var o := SpaceEdits.DeleteTable(data, choice, confirmed);
      var _ := ApplyEdit(o);
    }

    /** The core of `duplicate_current_table`, with the name typed into its prompt. */
    method DuplicateCurrentTable(newName: Option<string>) returns (error: Option<Reason>)
      requires Valid()
      modifies this
      ensures Valid()
      ensures var o := SpaceEdits.DuplicateTable(old(data), newName);
        State() == History.Commit(old(State()), o) && error == ErrorOf(o)
      ensures Extra() == old(Extra())
    {
      var o := SpaceEdits.DuplicateTable(data, newName);
      var _ := ApplyEdit(o);
      error := ErrorOf(o);
    }

    /**
     * `import_save_state` once the file is read: merge the imported spaces in one by one (those in
     * `overwrite` replacing a space of the same name), or replace the whole document.
     */
    method ImportSaveState(imported: Document, merge: bool, overwrite: set<string>)
      requires Valid() && forall n :: n in imported.order ==> n in imported.tables
      modifies this
      ensures Valid()
      ensures State() == History.Commit(old(State()), SpaceEdits.ImportSaveState(old(data), imported, merge, overwrite))
      ensures Extra() == old(Extra())
    {
      if merge {
        RecordHistory();
        var tables, order := data.tables, data.order;
        var i := 0;
        while i < |imported.order|
          invariant 0 <= i <= |imported.order|
          invariant (tables, order) == SpaceEdits.Merge(old(data).tables, old(data).order, imported.tables,
                                                        imported.order[..i], overwrite)
        {
          assert imported.order[..i + 1][..i] == imported.order[..i];
          var tableName := imported.order[i];
          if tableName in tables {
            if tableName in overwrite {
              tables := tables[tableName := imported.tables[tableName]];
            }
          } else {
            tables := tables[tableName := imported.tables[tableName]];
            order := order + [tableName];
          }
          i := i + 1;
        }
        assert imported.order[..i] == imported.order;
        var current := data.current;
        if imported.current.Some? && imported.current.value in tables {
          current := imported.current;
        }
        data := Document(tables, order, current);
      } else {
        RecordHistory();
        data := imported;
      }
      selectedRowName := None;
      EnsureRowSelectionValid();
    }

    /** `import_table_from_file` once the file is read, with the chosen name and overwrite answer. */
    method ImportTableFromFile(name: Option<string>, payload: Table, overwrite: bool)
      requires Valid()
      modifies this
      ensures Valid()
      ensures State() == History.Commit(old(State()), SpaceEdits.ImportTable(old(data), name, payload, overwrite))
      ensures Extra() == old(Extra())
    {
      var o := SpaceEdits.ImportTable(data, name, payload, overwrite);
      var _ := ApplyEdit(o);
    }
  }
}
