/**
 * Space edits of main/app.py: the submit of the `new_table` dialog with its planned rows, the
 * core of `delete_table_via_menu` and of `duplicate_current_table`, and the effect on the
 * document of `import_save_state` (merge or replace) and `import_table_from_file`.
 * The random colours of planned rows are parameters.
 */
module SpaceEdits {
  import opened Wrappers
  import Text
  import Ratio
  import Structure
  import opened Spaces
  import RowEdits

  /** What an attempt to plan one more row in the new-space dialog gives. */
  datatype Plan = Refused(reason: Reason) | Planned(rows: seq<string>)

  /** `add_pending_row`: the stripped name joins the planned rows. */
  function AddPending(pending: seq<string>, text: string): Plan
  {
    var name := Text.Strip(text);
    if name == [] then Refused(EmptyName)
    else if |pending| >= MaxRows then Refused(SpaceFull)
    else if name in pending then Refused(DuplicateName)
    else Planned(pending + [name])
  }

  /** `remove_selected_row`: the planned row at `idx` leaves the plan, if there is one. */
  function RemovePending(pending: seq<string>, idx: int): seq<string>
  {
    if 0 <= idx < |pending| then pending[..idx] + pending[idx + 1..] else pending
  }

  /** Planned rows: at most nine distinct names, none empty. */
  ghost predicate PlanOk(pending: seq<string>)
  {
    |pending| <= MaxRows && Distinct(pending) && forall i :: 0 <= i < |pending| ==> pending[i] != []
  }

  /**
   * Planning a row succeeds exactly when its stripped name is not empty, fewer than nine rows are
   * planned and none has that name; it then comes last, and a sound plan stays sound.
   */
  lemma AddPendingSpec(pending: seq<string>, text: string)
    ensures var p := AddPending(pending, text);
      var name := Text.Strip(text);
      && (p.Planned? <==> name != [] && |pending| < MaxRows && name !in pending)
      && (p.Planned? ==> p.rows == pending + [name])
      && (p.Planned? && PlanOk(pending) ==> PlanOk(p.rows))
  {
    var p := AddPending(pending, text);
    if p.Planned? && PlanOk(pending) {
      var name := Text.Strip(text);
      forall i, j | 0 <= i < j < |p.rows|
        ensures p.rows[i] != p.rows[j]
      {
        if j == |pending| {
          assert p.rows[i] in pending;
        }
      }
    }
  }

  /** Removing a planned row keeps a sound plan sound and drops exactly that row. */
  lemma RemovePendingSpec(pending: seq<string>, idx: int)
    requires PlanOk(pending)
    ensures PlanOk(RemovePending(pending, idx))
    ensures 0 <= idx < |pending| ==>
      |RemovePending(pending, idx)| == |pending| - 1 && pending[idx] !in RemovePending(pending, idx)
  {
    if 0 <= idx < |pending| {
      var p := RemovePending(pending, idx);
      assert forall i :: 0 <= i < |p| ==> p[i] == pending[if i < idx then i else i + 1];
    }
  }

  /** The rows `names` added in order, each with an empty cell per column and the colour at its position. */
  function AddRows(t: Table, names: seq<string>, colors: seq<string>): Table
    requires |colors| == |names|
  {
    if names == [] then t
    else
      var n := |names| - 1;
      RowEdits.AddRow(AddRows(t, names[..n], colors[..n]), names[n], RowEdits.EmptyCells(t.columns), colors[n])
  }

  /** Adding one more of the planned rows: what the loop of `new_table` does per row. */
  lemma AddRowsStep(t: Table, names: seq<string>, colors: seq<string>, i: nat)
    requires |colors| == |names| && i < |names|
    ensures AddRows(t, names[..i + 1], colors[..i + 1])
         == RowEdits.AddRow(AddRows(t, names[..i], colors[..i]), names[i], RowEdits.EmptyCells(t.columns), colors[i])
  {
    assert names[..i + 1][..i] == names[..i];
    assert colors[..i + 1][..i] == colors[..i];
  }

  /**
   * Adding rows appends them to the rows and gives each an empty cell per column; with distinct
   * names each gets its own colour; rows that were there keep their cards.
   */
  lemma {:induction false} AddRowsSpec(t: Table, names: seq<string>, colors: seq<string>)
    requires |colors| == |names|
    ensures var r := AddRows(t, names, colors);
      && r.rows == t.rows + names && r.columns == t.columns
      && (forall n :: n in r.cards <==> n in t.cards || n in names)
      && (forall n :: n in r.rowColors <==> n in t.rowColors || n in names)
      && (forall n :: n in names ==> r.cards[n] == RowEdits.EmptyCells(t.columns))
      && (forall n :: n in t.cards && n !in names ==> r.cards[n] == t.cards[n])
      && (Distinct(names) ==> forall i :: 0 <= i < |names| ==> r.rowColors[names[i]] == colors[i])
  {
    if names != [] {
      var n := |names| - 1;
      var init := names[..n];
      AddRowsSpec(t, init, colors[..n]);
      assert names == init + [names[n]];
      if Distinct(names) {
        assert Distinct(init);
        assert names[n] !in init;
      }
    }
  }

  /** Adding distinct new rows that fit keeps a space well formed. */
  lemma {:induction false} AddRowsWellFormed(t: Table, names: seq<string>, colors: seq<string>)
    requires |colors| == |names| && WellFormed(t) && Distinct(names)
    requires |t.rows| + |names| <= MaxRows && forall n :: n in names ==> n !in t.rows
    ensures WellFormed(AddRows(t, names, colors))
  {
    if names != [] {
      var n := |names| - 1;
      var init := names[..n];
      assert Distinct(init);
      AddRowsWellFormed(t, init, colors[..n]);
      AddRowsSpec(t, init, colors[..n]);
      assert names == init + [names[n]];
      assert names[n] !in init;
      RowEdits.AddRowWellFormed(AddRows(t, init, colors[..n]), names[n], RowEdits.EmptyCells(t.columns), colors[n]);
    }
  }

  /** The checks of the new-space dialog's submit, in order; `None` when the space is created. */
  function NewTableCheck(d: Document, nameText: string, colsText: string): Option<Reason>
  {
    var name, cols := Text.Strip(nameText), Text.Strip(colsText);
    if name == [] then Some(EmptyName)
    else if name in d.tables then Some(DuplicateName)
    else if !Text.IsDigits(cols) then Some(NotNumeric)
    else if Text.DigitsValue(cols) < 2 then Some(TooFewColumns)
    else None
  }

  /** The space the new-space dialog creates: the given columns and the planned rows. */
  function NewSpace(columns: seq<string>, pending: seq<string>, colors: seq<string>): Table
    requires |colors| == |pending|
  {
    AddRows(Table([], columns, map[], map[]), pending, colors)
  }

  /**
   * A new space with `n` generated columns has `n` stage columns labelled from "5.0" down to
   * "1.0", and the planned rows in order, each with an empty cell per column and its colour.
   */
  lemma NewSpaceSpec(n: nat, pending: seq<string>, colors: seq<string>)
    requires n >= 2 && |colors| == |pending| && Distinct(pending)
    ensures var t := NewSpace(Structure.Labels(n), pending, colors);
      && |t.columns| == n && t.columns[0] == "5.0" && t.columns[n - 1] == "1.0"
      && t.rows == pending
      && (forall r, c :: r in pending && c in t.columns ==> HasCell(t, r, c) && t.cards[r][c] == [])
      && (forall i :: 0 <= i < |pending| ==> pending[i] in t.rowColors && t.rowColors[pending[i]] == colors[i])
  {
    AddRowsSpec(Table([], Structure.Labels(n), map[], map[]), pending, colors);
    Structure.FirstLabel(n);
    Structure.LastLabel(n);
  }

  /**
   * The submit of `new_table`: a space named by the stripped name, with the generated stage
   * columns and the planned rows (`colors` are their random colours), becomes current; the first
   * planned row, if any, is selected.
   */
  function NewTable(d: Document, nameText: string, colsText: string, pending: seq<string>,
                    colors: seq<string>): Outcome
    requires |colors| == |pending|
  {
    match NewTableCheck(d, nameText, colsText)
    case Some(reason) => Rejected(reason)
    case None =>
      var name := Text.Strip(nameText);
      var t := NewSpace(Structure.Labels(Text.DigitsValue(Text.Strip(colsText))), pending, colors);
      Applied(Document(d.tables[name := t], d.order + [name], Some(name)),
              if pending != [] then Some(pending[0]) else None)
  }

  /**
   * A space is created exactly when the checks pass. It is then the new space with as many
   * generated columns as asked for (at least two), is current and comes last; the other spaces
   * stay; the first planned row is selected.
   */
  lemma NewTableSpec(d: Document, nameText: string, colsText: string, pending: seq<string>, colors: seq<string>)
    requires |colors| == |pending|
    ensures var o := NewTable(d, nameText, colsText, pending, colors);
      && (o.Applied? <==> NewTableCheck(d, nameText, colsText).None?)
      && (o.Applied? ==>
            var name, n := Text.Strip(nameText), Text.DigitsValue(Text.Strip(colsText));
            && n >= 2
            && o.doc.current == Some(name) && name !in d.tables
            && o.doc.tables == d.tables[name := NewSpace(Structure.Labels(n), pending, colors)]
            && o.doc.order == d.order + [name]
            && o.selected == (if pending == [] then None else Some(pending[0])))
  {
  }

  /** Creating a space with a sound plan keeps the document consistent. */
  lemma NewTableConsistent(d: Document, nameText: string, colsText: string, pending: seq<string>,
                           colors: seq<string>)
    requires |colors| == |pending| && PlanOk(pending) && Consistent(d)
    ensures var o := NewTable(d, nameText, colsText, pending, colors);
      o.Applied? ==> Consistent(o.doc)
  {
    var o := NewTable(d, nameText, colsText, pending, colors);
    if o.Applied? {
      var name := Text.Strip(nameText);
      var columns := Structure.Labels(Text.DigitsValue(Text.Strip(colsText)));
      AddRowsWellFormed(Table([], columns, map[], map[]), pending, colors);
      assert WellFormed(o.doc.tables[name]);
      assert name !in d.order;
      forall i, j | 0 <= i < j < |o.doc.order|
        ensures o.doc.order[i] != o.doc.order[j]
      {
        if j == |d.order| {
          assert o.doc.order[i] in d.order;
        }
      }
    }
  }

  /**
   * The core of `delete_table_via_menu`: the chosen space (`None` when the choice was cancelled)
   * is deleted once confirmed. When it was current, the first remaining space becomes current,
   * or none is. The selection is cleared.
   */
  function DeleteTable(d: Document, choice: Option<string>, confirmed: bool): Outcome
  {
    if d.tables == map[] then Rejected(NoSpace)
    else if choice.None? || choice.value == [] || !confirmed then Rejected(Cancelled)
    else
      var name := choice.value;
      var order := RemoveFirst(d.order, name);
      var current := if d.current != Some(name) then d.current
                     else if order != [] then Some(order[0]) else None;
      Applied(Document(d.tables - {name}, order, current), None)
  }

  /**
   * A space is deleted exactly when there is one to choose, a name was chosen and the deletion was
   * confirmed. The space is then gone from the spaces and from their order, every other one stays
   * in its place; a deleted current space hands over to the first remaining space in that order
   * (the one `next(iter(...))` yields); nothing is selected, and the document stays consistent.
   */
  lemma DeleteTableSpec(d: Document, choice: Option<string>, confirmed: bool)
    requires Consistent(d)
    ensures var o := DeleteTable(d, choice, confirmed);
      && (o.Applied? <==> d.tables != map[] && choice.Some? && choice.value != [] && confirmed)
      && (o.Applied? ==>
            var name := choice.value;
            && name !in o.doc.tables
            && o.doc.tables.Keys == d.tables.Keys - {name}
            && o.doc.order == RemoveFirst(d.order, name)
            && (forall m :: m in d.tables && m != name ==> m in o.doc.tables && o.doc.tables[m] == d.tables[m])
            && (d.current != Some(name) ==> o.doc.current == d.current)
            && (d.current == Some(name) && o.doc.tables != map[] ==>
                  RemoveFirst(d.order, name) != [] && o.doc.current == Some(RemoveFirst(d.order, name)[0]))
            && (d.current == Some(name) && o.doc.tables == map[] ==> o.doc.current == None)
            && o.selected == None
            && Consistent(o.doc))
  {
    var o := DeleteTable(d, choice, confirmed);
    if o.Applied? {
      var name := choice.value;
      RemoveDistinct(d.order, name);
      var order := o.doc.order;
      if order != [] {
        assert order[0] in order;
      }
      if o.doc.tables != map[] {
        var m :| m in o.doc.tables;
        assert m in order;
      }
    }
  }

  /**
   * The core of `duplicate_current_table`: a copy of the current space under the new name (`None`
   * when the prompt was cancelled) becomes current; the selection is cleared.
   */
  function DuplicateTable(d: Document, newName: Option<string>): Outcome
  {
    if d.current.None? || d.current.value == [] then Rejected(NoSpace)
    else if d.current.value !in d.tables then Rejected(InvalidSpace)
    else if newName.None? || newName.value == [] then Rejected(Cancelled)
    else if newName.value in d.tables then Rejected(DuplicateName)
    else
      var name := newName.value;
      Applied(Document(d.tables[name := d.tables[d.current.value]], d.order + [name], Some(name)), None)
  }

  /**
   * A duplicate is made exactly when there is a current space, a new name was given and it is
   * free: the copy equals the original, which stays, comes last in the order of spaces and becomes
   * current; no other space is added, every other space stays, and the document stays consistent.
   */
  lemma DuplicateTableSpec(d: Document, newName: Option<string>)
    requires Consistent(d)
    ensures var o := DuplicateTable(d, newName);
      && (o.Applied? <==> d.current.Some? && d.current.value != [] && newName.Some? && newName.value != []
                          && newName.value !in d.tables)
      && (o.Applied? ==>
            var name := newName.value;
            && o.doc.current == Some(name)
            && o.doc.tables[name] == d.tables[d.current.value]
            && o.doc.tables.Keys == d.tables.Keys + {name}
            && o.doc.order == d.order + [name]
            && (forall m :: m in d.tables ==> m in o.doc.tables && o.doc.tables[m] == d.tables[m])
            && o.selected == None
            && Consistent(o.doc))
  {
    var o := DuplicateTable(d, newName);
    if o.Applied? {
      var name := newName.value;
      assert name !in d.order;
      forall i, j | 0 <= i < j < |o.doc.order|
        ensures o.doc.order[i] != o.doc.order[j]
      {
        if j == |d.order| {
          assert o.doc.order[i] in d.order;
        }
      }
    }
  }

  /**
   * One step of the merge loop of `import_save_state`: an imported space of a new name is added
   * (and comes last); one whose name exists replaces it only when the user agreed to overwrite.
   */
  function MergeStep(tables: map<string, Table>, order: seq<string>, imported: map<string, Table>,
                     name: string, overwrite: set<string>): (map<string, Table>, seq<string>)
    requires name in imported
  {
    if name !in tables then (tables[name := imported[name]], order + [name])
    else if name in overwrite then (tables[name := imported[name]], order)
    else (tables, order)
  }

  /** The merge loop over the imported names `names`, in order. */
  function Merge(tables: map<string, Table>, order: seq<string>, imported: map<string, Table>,
                 names: seq<string>, overwrite: set<string>): (map<string, Table>, seq<string>)
    requires forall n :: n in names ==> n in imported
  {
    if names == [] then (tables, order)
    else
      var k := |names| - 1;
      var before := Merge(tables, order, imported, names[..k], overwrite);
      MergeStep(before.0, before.1, imported, names[k], overwrite)
  }

  /**
   * After merging, a space is there exactly when it was there or was imported; an imported space
   * is taken when its name was new or the user agreed to overwrite, and otherwise the space
   * that was there stays.
   */
  lemma {:induction false} MergeSpec(tables: map<string, Table>, order: seq<string>, imported: map<string, Table>,
                                     names: seq<string>, overwrite: set<string>)
    requires forall n :: n in names ==> n in imported
    ensures var (t2, _) := Merge(tables, order, imported, names, overwrite);
      && (forall n :: n in t2 <==> n in tables || n in names)
      && (forall n :: n in names && (n !in tables || n in overwrite) ==> t2[n] == imported[n])
      && (forall n :: n in tables && (n !in names || n !in overwrite) ==> t2[n] == tables[n])
  {
    if names != [] {
      var k := |names| - 1;
      MergeSpec(tables, order, imported, names[..k], overwrite);
      assert names == names[..k] + [names[k]];
    }
  }

  /** The names of `names` that `order` does not list, in the order of `names`. */
  function NewNames(names: seq<string>, order: seq<string>): (r: seq<string>)
    ensures forall n :: n in r <==> n in names && n !in order
  {
    if names == [] then []
    else (if names[0] in order then [] else [names[0]]) + NewNames(names[1..], order)
  }

  /** A name added at the end of `names` is new or not, independently of the others. */
  lemma {:induction false} NewNamesSnoc(names: seq<string>, x: string, order: seq<string>)
    ensures NewNames(names + [x], order) == NewNames(names, order) + (if x in order then [] else [x])
  {
    if names != [] {
      assert (names + [x])[1..] == names[1..] + [x];
      NewNamesSnoc(names[1..], x, order);
    }
  }

  /** The last name of `names` is new or not, independently of the others. */
  lemma NewNamesLast(names: seq<string>, order: seq<string>)
    requires names != []
    ensures var k := |names| - 1;
      NewNames(names, order) == NewNames(names[..k], order) + (if names[k] in order then [] else [names[k]])
  {
    var k := |names| - 1;
    assert names == names[..k] + [names[k]];
    NewNamesSnoc(names[..k], names[k], order);
  }

  /**
   * Merging keeps the names listed once each, in the order of the spaces: the names listed before,
   * then, when the imported names are distinct (as a dictionary's keys are), the imported names
   * that were new, in imported order, as `self.data["tables"][table_name] = ...` inserts them.
   */
  lemma {:induction false} MergeOrdered(tables: map<string, Table>, order: seq<string>, imported: map<string, Table>,
                                        names: seq<string>, overwrite: set<string>)
    requires forall n :: n in names ==> n in imported
    requires Distinct(order) && forall n :: n in tables <==> n in order
    ensures var (t2, o2) := Merge(tables, order, imported, names, overwrite);
      Distinct(o2) && (forall n :: n in t2 <==> n in o2)
      && (Distinct(names) ==> o2 == order + NewNames(names, order))
  {
    if names != [] {
      var k := |names| - 1;
      MergeOrdered(tables, order, imported, names[..k], overwrite);
      var (t1, o1) := Merge(tables, order, imported, names[..k], overwrite);
      var (t2, o2) := MergeStep(t1, o1, imported, names[k], overwrite);
      if Distinct(names) {
        MergeInsertionOrder(tables, order, imported, names, overwrite);
      }
      if names[k] !in t1 {
        forall i, j | 0 <= i < j < |o2|
          ensures o2[i] != o2[j]
        {
          if j == |o1| {
            assert o2[i] in o1;
          }
        }
      }
    }
  }

  /** All but the last of distinct names are distinct, and the last is not among them. */
  lemma DistinctInit(names: seq<string>)
    requires names != [] && Distinct(names)
    ensures Distinct(names[..|names| - 1]) && names[|names| - 1] !in names[..|names| - 1]
  {
    var k := |names| - 1;
    forall i, j | 0 <= i < j < k
      ensures names[..k][i] != names[..k][j]
    {
      assert names[..k][i] == names[i] && names[..k][j] == names[j];
    }
    forall i | 0 <= i < k
      ensures names[..k][i] != names[k]
    {
      assert names[..k][i] == names[i];
    }
  }

  /** One merge step appends the name exactly when it is new. */
  lemma MergeStepOrder(tables: map<string, Table>, order: seq<string>, imported: map<string, Table>,
                       name: string, overwrite: set<string>, known: seq<string>)
    requires name in imported && (name in tables <==> name in known)
    ensures MergeStep(tables, order, imported, name, overwrite).1 == order + (if name in known then [] else [name])
  {
  }

  /** A name not among the merged names is in the merged spaces exactly when it was listed before. */
  lemma MergeKnows(tables: map<string, Table>, order: seq<string>, imported: map<string, Table>,
                   names: seq<string>, overwrite: set<string>, x: string)
    requires forall n :: n in names ==> n in imported
    requires (forall n :: n in tables <==> n in order) && x !in names
    ensures x in Merge(tables, order, imported, names, overwrite).0 <==> x in order
  {
    MergeSpec(tables, order, imported, names, overwrite);
  }

  /** Distinct imported names that are new are listed after the existing names, in imported order. */
  lemma {:induction false} MergeInsertionOrder(tables: map<string, Table>, order: seq<string>, imported: map<string, Table>,
                                               names: seq<string>, overwrite: set<string>)
    requires forall n :: n in names ==> n in imported
    requires Distinct(names) && forall n :: n in tables <==> n in order
    ensures Merge(tables, order, imported, names, overwrite).1 == order + NewNames(names, order)
  {
    if names != [] {
      var k := |names| - 1;
      DistinctInit(names);
      var init, x := names[..k], names[k];
      MergeInsertionOrder(tables, order, imported, init, overwrite);
      MergeKnows(tables, order, imported, init, overwrite, x);
      var before := Merge(tables, order, imported, init, overwrite);
      MergeStepOrder(before.0, before.1, imported, x, overwrite, order);
      NewNamesLast(names, order);
      var added := if x in order then [] else [x];
      calc {
        Merge(tables, order, imported, names, overwrite).1;
        MergeStep(before.0, before.1, imported, x, overwrite).1;
        (order + NewNames(init, order)) + added;
        order + (NewNames(init, order) + added);
        order + NewNames(names, order);
      }
    }
  }

  /**
   * `import_save_state`: with `merge` the imported spaces are merged in (overwriting the names in
   * `overwrite`) and the imported current space becomes current when it exists; otherwise the
   * imported document replaces the whole document. Either way the selection is cleared.
   */
  function ImportSaveState(d: Document, imported: Document, merge: bool, overwrite: set<string>): Outcome
    requires forall n :: n in imported.order ==> n in imported.tables
  {
    if !merge then Applied(imported, ValidSelection(imported, None))
    else
      var (tables, order) := Merge(d.tables, d.order, imported.tables, imported.order, overwrite);
      var current := if imported.current.Some? && imported.current.value in tables then imported.current else d.current;
      var d2 := Document(tables, order, current);
      Applied(d2, ValidSelection(d2, None))
  }

  /**
   * Importing with merge keeps every existing space that was not overwritten, adds every imported
   * one after the existing ones in imported order, makes the imported current space current when
   * it is among the merged spaces and otherwise keeps the current space. These hold whatever the
   * imported spaces contain, since they are not checked; the document stays consistent when they
   * are well formed. Replacing gives the imported document.
   * Nothing is selected afterwards.
   */
  lemma ImportSaveStateSpec(d: Document, imported: Document, merge: bool, overwrite: set<string>)
    requires Consistent(d) && Ordered(imported)
    ensures var o := ImportSaveState(d, imported, merge, overwrite);
      && o.Applied? && o.selected == None
      && (!merge ==> o.doc == imported)
      && (merge ==>
            && (forall n :: n in o.doc.tables <==> n in d.tables || n in imported.tables)
            && (forall n :: n in imported.tables && (n !in d.tables || n in overwrite) ==> o.doc.tables[n] == imported.tables[n])
            && (forall n :: n in d.tables && (n !in imported.tables || n !in overwrite) ==> o.doc.tables[n] == d.tables[n])
            && o.doc.order == d.order + NewNames(imported.order, d.order)
            && (imported.current.Some? && imported.current.value in o.doc.tables ==> o.doc.current == imported.current)
            && (imported.current.None? || imported.current.value !in o.doc.tables ==> o.doc.current == d.current)
            && ((forall n :: n in imported.tables ==> WellFormed(imported.tables[n])) ==> Consistent(o.doc)))
  {
    if merge {
      MergeSpec(d.tables, d.order, imported.tables, imported.order, overwrite);
      MergeInsertionOrder(d.tables, d.order, imported.tables, imported.order, overwrite);
      if forall n :: n in imported.tables ==> WellFormed(imported.tables[n]) {
        MergedConsistent(d, imported, overwrite);
      }
    }
  }

  /** A merge of well-formed imported spaces into a consistent document is consistent. */
  lemma MergedConsistent(d: Document, imported: Document, overwrite: set<string>)
    requires Consistent(d) && Ordered(imported)
    requires forall n :: n in imported.tables ==> WellFormed(imported.tables[n])
    ensures Consistent(ImportSaveState(d, imported, true, overwrite).doc)
  {
    MergeSpec(d.tables, d.order, imported.tables, imported.order, overwrite);
    MergeOrdered(d.tables, d.order, imported.tables, imported.order, overwrite);
  }

  /**
   * The effect of `import_table_from_file`: the imported space is stored under the chosen name
   * (`None` when cancelled), replacing a space of that name only when the user agreed, and
   * becomes current; the selection is cleared.
   */
  function ImportTable(d: Document, name: Option<string>, payload: Table, overwrite: bool): Outcome
  {
    if name.None? || name.value == [] then Rejected(Cancelled)
    else if name.value in d.tables && !overwrite then Rejected(Cancelled)
    else
      var n := name.value;
      Applied(Document(d.tables[n := payload], if n in d.tables then d.order else d.order + [n], Some(n)), None)
  }

  /**
   * A space is imported exactly when a name was given and it is new or may be overwritten; it is
   * then current; a new name comes last in the order of spaces, an overwritten one keeps its
   * place; no other space is added, every other space stays, and the document stays consistent
   * when the imported space is well formed.
   */
  lemma ImportTableSpec(d: Document, name: Option<string>, payload: Table, overwrite: bool)
    requires Consistent(d)
    ensures var o := ImportTable(d, name, payload, overwrite);
      && (o.Applied? <==> name.Some? && name.value != [] && (name.value !in d.tables || overwrite))
      && (o.Applied? ==>
            && o.doc.current == name && o.doc.tables[name.value] == payload
            && o.doc.tables.Keys == d.tables.Keys + {name.value}
            && o.doc.order == (if name.value in d.tables then d.order else d.order + [name.value])
            && o.selected == None
            && (forall m :: m in d.tables && m != name.value ==> m in o.doc.tables && o.doc.tables[m] == d.tables[m])
            && (WellFormed(payload) ==> Consistent(o.doc)))
  {
    var o := ImportTable(d, name, payload, overwrite);
    if o.Applied? && name.value !in d.tables {
      forall i, j | 0 <= i < j < |o.doc.order|
        ensures o.doc.order[i] != o.doc.order[j]
      {
        if j == |d.order| {
          assert o.doc.order[i] in d.order;
        }
      }
    }
  }
}
