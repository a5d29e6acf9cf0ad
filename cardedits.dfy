/**
 * Card edits of main/app.py: `_extract_card_weight`, `adjust_card_weight`, the core of
 * `add_card_to_row_by_name`, `move_card_between_columns`, the edits `on_card_click` and
 * `on_column_click` make, and the back text `on_card_right_click` writes.
 * A card is found with `find_card`, so every edit acts on the first card with the given front.
 */
module CardEdits {
  import opened Wrappers
  import Text
  import Numbers
  import Cards
  import opened Spaces

  /** `card_weight_step`, `card_weight_min` and `card_weight_max`. */
  const WeightStep: real := 10.0
  const WeightMin: real := 10.0
  const WeightMax: real := 200.0

  /** `_extract_card_weight`: `float(card.get("weight", 100.0))`, and 100.0 where that raises. */
  function ExtractWeight(fields: map<string, Cards.Value>): real
  {
    Cards.FloatOf(Cards.Get(fields, "weight", Cards.Number(100.0, "100.0"))).GetOr(100.0)
  }

  /**
   * The weight read for a card is the weight normalisation gives it, and for a stored
   * canonical card it is the card's own weight.
   */
  lemma ExtractWeightSpec(fields: map<string, Cards.Value>, c: Cards.Card)
    ensures ExtractWeight(fields) == Cards.Normalize(Cards.RawDict(fields)).weight
    ensures ExtractWeight(Cards.ToRaw(c).fields) == c.weight
  {
  }

  /** `round(max(card_weight_min, min(card_weight_max, current + delta)), 2)`. */
  function NewWeight(current: real, delta: real): real
  {
    Numbers.Round2(Numbers.Clamp(current + delta, WeightMin, WeightMax))
  }

  /**
   * An adjusted weight always lies in [10, 200]; a sum beyond a bound gives that bound, and a
   * sum within the bounds with at most two decimals is kept exactly.
   */
  lemma NewWeightSpec(current: real, delta: real)
    ensures WeightMin <= NewWeight(current, delta) <= WeightMax
    ensures current + delta <= WeightMin ==> NewWeight(current, delta) == WeightMin
    ensures current + delta >= WeightMax ==> NewWeight(current, delta) == WeightMax
    ensures WeightMin <= current + delta <= WeightMax && ((current + delta) * 100.0).Floor as real == (current + delta) * 100.0
            ==> NewWeight(current, delta) == current + delta
  {
    var x := Numbers.Clamp(current + delta, WeightMin, WeightMax);
    Numbers.RoundBetween(x * 100.0, 1000, 20000);
    Numbers.RoundOfInteger(1000);
    Numbers.RoundOfInteger(20000);
    if x * 100.0 == (x * 100.0).Floor as real {
      Numbers.RoundOfInteger((x * 100.0).Floor);
    }
  }

  /** Editing the cards of cell (`row`, `col`) of the current space changes nothing else. */
  lemma EditCell(d: Document, row: string, col: string, cs: seq<Cards.Card>)
    requires CurrentTable(d).Some? && HasCell(CurrentTable(d).value, row, col)
    ensures var t := CurrentTable(d).value;
      var d2 := PutCurrent(d, WithCell(t, row, col, cs));
      && CardsOnlyChanged(d, d2)
      && CellsKept(t, CurrentTable(d2).value, {(row, col)})
      && HasCell(CurrentTable(d2).value, row, col)
      && CurrentTable(d2).value.cards[row][col] == cs
  {
    var t := CurrentTable(d).value;
    assert WithCell(t, row, col, cs).cards[row].Keys == t.cards[row].Keys;
  }

  /**
   * `adjust_card_weight`: the first card with front `front` in cell (`row`, `col`) gets the weight
   * `NewWeight` of its current weight and `delta`.
   */
  function AdjustWeight(d: Document, selected: Option<string>, row: string, col: string, front: string,
                        delta: real): Outcome
  {
    match CurrentTable(d)
    case None => Rejected(NoSpace)
    case Some(t) =>
      if !HasCell(t, row, col) then Rejected(MissingCell)
      else
        var cell := t.cards[row][col];
        match Cards.FindCard(cell, front)
        case None => Rejected(CardNotFound)
        case Some(k) =>
          var card := cell[k];
          var weight := NewWeight(ExtractWeight(Cards.ToRaw(card).fields), delta);
          Applied(PutCurrent(d, WithCell(t, row, col, cell[k := card.(weight := weight)])), selected)
  }

  /**
   * A weight is adjusted exactly when the cell exists and holds a card with that front. Then that
   * first card, and only its weight, changes: to the clamped, rounded sum, which lies in [10, 200];
   * every other card, cell and space stays, and so does the selection.
   */
  lemma AdjustWeightSpec(d: Document, selected: Option<string>, row: string, col: string, front: string,
                         delta: real)
    ensures var o := AdjustWeight(d, selected, row, col, front, delta);
      && (o.Applied? <==> CurrentTable(d).Some? && HasCell(CurrentTable(d).value, row, col)
                           && Cards.FindCard(CurrentTable(d).value.cards[row][col], front).Some?)
      && (o.Applied? ==>
            var t := CurrentTable(d).value;
            var cell, k := t.cards[row][col], Cards.FindCard(t.cards[row][col], front).value;
            && CardsOnlyChanged(d, o.doc)
            && CellsKept(t, CurrentTable(o.doc).value, {(row, col)})
            && var cell2 := CurrentTable(o.doc).value.cards[row][col];
            && |cell2| == |cell|
            && (forall i :: 0 <= i < |cell| && i != k ==> cell2[i] == cell[i])
            && cell2[k] == cell[k].(weight := NewWeight(cell[k].weight, delta))
            && WeightMin <= cell2[k].weight <= WeightMax
            && o.selected == selected)
  {
    var o := AdjustWeight(d, selected, row, col, front, delta);
    if o.Applied? {
      var t := CurrentTable(d).value;
      var cell, k := t.cards[row][col], Cards.FindCard(t.cards[row][col], front).value;
      ExtractWeightSpec(map[], cell[k]);
      NewWeightSpec(cell[k].weight, delta);
      EditCell(d, row, col, cell[k := cell[k].(weight := NewWeight(cell[k].weight, delta))]);
    }
  }

  /**
   * The core of `add_card_to_row_by_name`: the card name typed into the prompt (`None` when it
   * was cancelled; the prompt only accepts a name that is not empty after stripping) becomes a
   * new card at the end of the row's first column, and the row is selected. A space without
   * columns fails before any history entry; a row missing from the card map fails after it.
   */
  function AddCard(d: Document, selected: Option<string>, rowName: string, entered: Option<string>): Outcome
  {
    match CurrentTable(d)
    case None => Rejected(NoSpace)
    case Some(t) =>
      if entered.None? || Text.Strip(entered.value) == [] then Rejected(Cancelled)
      else if t.columns == [] then Rejected(NoColumns)
      else if !HasCell(t, rowName, t.columns[0]) then Applied(d, selected)
      else
        var cell := t.cards[rowName][t.columns[0]];
        Applied(PutCurrent(d, WithCell(t, rowName, t.columns[0], cell + [Cards.CreateCard(Text.Strip(entered.value))])),
                 Some(rowName))
  }

  /**
   * A card is added when there is a current space, a name was entered and the space has a
   * column: it is the default card with the stripped name, last in the row's first column, every
   * other cell stays and the row is selected. Should the row have no such cell, a history entry
   * is recorded and nothing else changes.
   */
  lemma AddCardSpec(d: Document, selected: Option<string>, rowName: string, entered: Option<string>)
    ensures var o := AddCard(d, selected, rowName, entered);
      && (o.Applied? <==> CurrentTable(d).Some? && entered.Some? && Text.Strip(entered.value) != []
                           && CurrentTable(d).value.columns != [])
      && (o.Applied? ==>
            var t := CurrentTable(d).value;
            var col := t.columns[0];
            && (!HasCell(t, rowName, col) ==> o.doc == d && o.selected == selected)
            && (HasCell(t, rowName, col) ==>
                  && CardsOnlyChanged(d, o.doc)
                  && CellsKept(t, CurrentTable(o.doc).value, {(rowName, col)})
                  && CurrentTable(o.doc).value.cards[rowName][col]
                     == t.cards[rowName][col] + [Cards.Card(Text.Strip(entered.value), "", false, Cards.DefaultWeight)]
                  && o.selected == Some(rowName)))
  {
    var o := AddCard(d, selected, rowName, entered);
    if o.Applied? {
      var t := CurrentTable(d).value;
      var col := t.columns[0];
      if HasCell(t, rowName, col) {
        EditCell(d, rowName, col, t.cards[rowName][col] + [Cards.CreateCard(Text.Strip(entered.value))]);
      }
    }
  }

  /** The mark-mode branch of `on_card_click`: the clicked card's mark flips. */
  function ToggleMark(d: Document, selected: Option<string>, row: string, col: string, front: string): Outcome
  {
    match CurrentTable(d)
    case None => Rejected(NoSpace)
    case Some(t) =>
      if !HasCell(t, row, col) then Rejected(MissingCell)
      else
        var cell := t.cards[row][col];
        match Cards.FindCard(cell, front)
        case None => Rejected(CardNotFound)
        case Some(k) =>
          Applied(PutCurrent(d, WithCell(t, row, col, cell[k := cell[k].(marked := !cell[k].marked)])), selected)
  }

  /** Marking flips the mark of the first card with that front and changes nothing else, the selection included. */
  lemma ToggleMarkSpec(d: Document, selected: Option<string>, row: string, col: string, front: string)
    ensures var o := ToggleMark(d, selected, row, col, front);
      && (o.Applied? <==> CurrentTable(d).Some? && HasCell(CurrentTable(d).value, row, col)
                           && Cards.FindCard(CurrentTable(d).value.cards[row][col], front).Some?)
      && (o.Applied? ==>
            var t := CurrentTable(d).value;
            var cell, k := t.cards[row][col], Cards.FindCard(t.cards[row][col], front).value;
            && CardsOnlyChanged(d, o.doc)
            && CellsKept(t, CurrentTable(o.doc).value, {(row, col)})
            && var cell2 := CurrentTable(o.doc).value.cards[row][col];
            && |cell2| == |cell|
            && (forall i :: 0 <= i < |cell| && i != k ==> cell2[i] == cell[i])
            && cell2[k] == cell[k].(marked := !cell[k].marked)
            && o.selected == selected)
  {
    var o := ToggleMark(d, selected, row, col, front);
    if o.Applied? {
      var t := CurrentTable(d).value;
      var cell, k := t.cards[row][col], Cards.FindCard(t.cards[row][col], front).value;
      EditCell(d, row, col, cell[k := cell[k].(marked := !cell[k].marked)]);
    }
  }

  /** Marking the same card twice gives back the document it started from. */
  lemma ToggleMarkTwice(d: Document, selected: Option<string>, row: string, col: string, front: string)
    ensures var o := ToggleMark(d, selected, row, col, front);
      o.Applied? ==> ToggleMark(o.doc, o.selected, row, col, front) == Applied(d, selected)
  {
    var o := ToggleMark(d, selected, row, col, front);
    if o.Applied? {
      var t := CurrentTable(d).value;
      var cell, k := t.cards[row][col], Cards.FindCard(t.cards[row][col], front).value;
      var cell2 := cell[k := cell[k].(marked := !cell[k].marked)];
      var t2 := WithCell(t, row, col, cell2);
      assert forall i :: 0 <= i < |cell2| ==> cell2[i].front == cell[i].front;
      assert Cards.FindCard(cell2, front) == Some(k);
      assert cell2[k := cell2[k].(marked := !cell2[k].marked)] == cell;
      WithCellRestore(t, row, col, cell2);
      PutCurrentRestore(d, t2);
    }
  }

  /** The delete-mode branch of `on_card_click`: the clicked card leaves its cell. */
  function DeleteCard(d: Document, selected: Option<string>, row: string, col: string, front: string): Outcome
  {
    match CurrentTable(d)
    case None => Rejected(NoSpace)
    case Some(t) =>
      if !HasCell(t, row, col) then Rejected(MissingCell)
      else
        var cell := t.cards[row][col];
        match Cards.FindCard(cell, front)
        case None => Rejected(CardNotFound)
        case Some(k) => Applied(PutCurrent(d, WithCell(t, row, col, RemoveFirst(cell, cell[k]))), selected)
  }

  /** Deleting removes exactly the first card with that front, keeping the order of the others and the selection. */
  lemma DeleteCardSpec(d: Document, selected: Option<string>, row: string, col: string, front: string)
    ensures var o := DeleteCard(d, selected, row, col, front);
      && (o.Applied? <==> CurrentTable(d).Some? && HasCell(CurrentTable(d).value, row, col)
                           && Cards.FindCard(CurrentTable(d).value.cards[row][col], front).Some?)
      && (o.Applied? ==>
            var t := CurrentTable(d).value;
            var cell, k := t.cards[row][col], Cards.FindCard(t.cards[row][col], front).value;
            && CardsOnlyChanged(d, o.doc)
            && CellsKept(t, CurrentTable(o.doc).value, {(row, col)})
            && CurrentTable(o.doc).value.cards[row][col] == cell[..k] + cell[k + 1..]
            && o.selected == selected)
  {
    var o := DeleteCard(d, selected, row, col, front);
    if o.Applied? {
      var t := CurrentTable(d).value;
      var cell, k := t.cards[row][col], Cards.FindCard(t.cards[row][col], front).value;
      RemoveFoundCard(cell, front, k);
      EditCell(d, row, col, RemoveFirst(cell, cell[k]));
    }
  }

  /**
   * `cards[old_row][old_col].remove(card)` and then `cards[row][col].append(card)` for the card at
   * `k` of the source cell; the append is skipped where the target cell is missing (the `KeyError`
   * of the source comes after the removal).
   */
  function Relocate(t: Table, sRow: string, sCol: string, k: nat, tRow: string, tCol: string): Table
    requires HasCell(t, sRow, sCol) && k < |t.cards[sRow][sCol]|
  {
    var cell := t.cards[sRow][sCol];
    var t1 := WithCell(t, sRow, sCol, RemoveFirst(cell, cell[k]));
    if HasCell(t1, tRow, tCol) then WithCell(t1, tRow, tCol, t1.cards[tRow][tCol] + [cell[k]]) else t1
  }

  /**
   * Relocating a card between two existing cells keeps the rows, columns and colours, the rows'
   * cells, and the cards of every cell but those two.
   */
  lemma RelocateFrame(t: Table, sRow: string, sCol: string, k: nat, tRow: string, tCol: string)
    requires HasCell(t, sRow, sCol) && k < |t.cards[sRow][sCol]| && HasCell(t, tRow, tCol)
    ensures var t2 := Relocate(t, sRow, sCol, k, tRow, tCol);
      && t2.rows == t.rows && t2.columns == t.columns && t2.rowColors == t.rowColors
      && t2.cards.Keys == t.cards.Keys && (forall r :: r in t.cards ==> t2.cards[r].Keys == t.cards[r].Keys)
      && CellsKept(t, t2, {(sRow, sCol), (tRow, tCol)})
  {
  }

  /**
   * Relocating the first card with front `front` between two different cells takes it out of the
   * source, keeping the others in order, and appends it to the target; the two cells together
   * hold the same cards as before.
   */
  lemma RelocateSpec(t: Table, sRow: string, sCol: string, front: string, k: nat, tRow: string, tCol: string)
    requires HasCell(t, sRow, sCol) && Cards.FindCard(t.cards[sRow][sCol], front) == Some(k)
    requires HasCell(t, tRow, tCol) && (sRow, sCol) != (tRow, tCol)
    ensures var t2 := Relocate(t, sRow, sCol, k, tRow, tCol);
      var src, dst := t.cards[sRow][sCol], t.cards[tRow][tCol];
      && HasCell(t2, sRow, sCol) && HasCell(t2, tRow, tCol)
      && t2.cards[sRow][sCol] == src[..k] + src[k + 1..]
      && t2.cards[tRow][tCol] == dst + [src[k]]
      && multiset(t2.cards[sRow][sCol]) + multiset(t2.cards[tRow][tCol]) == multiset(src) + multiset(dst)
  {
    var src, dst := t.cards[sRow][sCol], t.cards[tRow][tCol];
    RemoveFoundCard(src, front, k);
    MovedCardKept(src, dst, k);
  }

  /** Cutting the card at `k` out of `src` and appending it to `dst` keeps the cards of the two. */
  lemma MovedCardKept(src: seq<Cards.Card>, dst: seq<Cards.Card>, k: nat)
    requires k < |src|
    ensures multiset(src[..k] + src[k + 1..]) + multiset(dst + [src[k]]) == multiset(src) + multiset(dst)
  {
    assert src == src[..k] + [src[k]] + src[k + 1..];
  }

  /** Relocating a card onto its own cell moves it to the end of that cell. */
  lemma RelocateSameCell(t: Table, row: string, col: string, front: string, k: nat)
    requires HasCell(t, row, col) && Cards.FindCard(t.cards[row][col], front) == Some(k)
    ensures var cell := t.cards[row][col];
      Relocate(t, row, col, k, row, col).cards[row][col] == cell[..k] + cell[k + 1..] + [cell[k]]
  {
    RemoveFoundCard(t.cards[row][col], front, k);
  }

  /**
   * `move_card_between_columns`: the first card with front `front` in the source cell moves to the
   * end of the target cell.
   */
  function MoveCardBetweenColumns(d: Document, selected: Option<string>, sRow: string, sCol: string,
                                  front: string, tRow: string, tCol: string): Outcome
  {
    match CurrentTable(d)
    case None => Rejected(NoSpace)
    case Some(t) =>
      if sRow == tRow && sCol == tCol then Rejected(SameCell)
      else if !HasCell(t, tRow, tCol) || !HasCell(t, sRow, sCol) then Rejected(MissingCell)
      else
        match Cards.FindCard(t.cards[sRow][sCol], front)
        case None => Rejected(CardNotFound)
        case Some(k) => Applied(PutCurrent(d, Relocate(t, sRow, sCol, k, tRow, tCol)), selected)
  }

  /**
   * A move happens exactly when the two cells differ, both exist and the source holds a card
   * with that front; the card then leaves the source and is appended to the target, the number
   * of cards of the two cells together stays, and nothing else changes.
   */
  lemma MoveCardBetweenColumnsSpec(d: Document, selected: Option<string>, sRow: string, sCol: string,
                                   front: string, tRow: string, tCol: string)
    ensures var o := MoveCardBetweenColumns(d, selected, sRow, sCol, front, tRow, tCol);
      && (o.Applied? <==> CurrentTable(d).Some? && (sRow, sCol) != (tRow, tCol)
                           && HasCell(CurrentTable(d).value, sRow, sCol) && HasCell(CurrentTable(d).value, tRow, tCol)
                           && Cards.FindCard(CurrentTable(d).value.cards[sRow][sCol], front).Some?)
      && (o.Applied? ==>
            var t := CurrentTable(d).value;
            var src, dst := t.cards[sRow][sCol], t.cards[tRow][tCol];
            var k := Cards.FindCard(src, front).value;
            var t2 := CurrentTable(o.doc).value;
            && CardsOnlyChanged(d, o.doc)
            && CellsKept(t, t2, {(sRow, sCol), (tRow, tCol)})
            && t2.cards[sRow][sCol] == src[..k] + src[k + 1..]
            && t2.cards[tRow][tCol] == dst + [src[k]]
            && |t2.cards[sRow][sCol]| + |t2.cards[tRow][tCol]| == |src| + |dst|
            && o.selected == selected)
  {
    var o := MoveCardBetweenColumns(d, selected, sRow, sCol, front, tRow, tCol);
    if o.Applied? {
      var t := CurrentTable(d).value;
      var k := Cards.FindCard(t.cards[sRow][sCol], front).value;
      var t2 := Relocate(t, sRow, sCol, k, tRow, tCol);
      assert o.doc == PutCurrent(d, t2);
      RelocateFrame(t, sRow, sCol, k, tRow, tCol);
      RelocateSpec(t, sRow, sCol, front, k, tRow, tCol);
      CardsOnlyPut(d, t2);
    }
  }

  /** Putting back a current space whose rows and cells are the same changes only cards. */
  lemma CardsOnlyPut(d: Document, t2: Table)
    requires CurrentTable(d).Some?
    requires var t := CurrentTable(d).value;
      && t2.rows == t.rows && t2.columns == t.columns && t2.rowColors == t.rowColors
      && t2.cards.Keys == t.cards.Keys && (forall r :: r in t.cards ==> t2.cards[r].Keys == t.cards[r].Keys)
    ensures CardsOnlyChanged(d, PutCurrent(d, t2))
  {
  }

  /**
   * The move branch of `on_card_click`, with a card picked up from (`moving.0`, `moving.1`) and
   * the card `front` clicked in (`row`, `col`): the picked-up card moves to the end of the
   * clicked card's cell, even when that is the cell it came from.
   */
  function DropOnCard(d: Document, selected: Option<string>, moving: (string, string, string),
                      row: string, col: string, front: string): Outcome
  {
    match CurrentTable(d)
    case None => Rejected(NoSpace)
    case Some(t) =>
      if !HasCell(t, row, col) then Rejected(MissingCell)
      else if Cards.FindCard(t.cards[row][col], front).None? then Rejected(CardNotFound)
      else if !HasCell(t, moving.0, moving.1) then Rejected(MissingCell)
      else
        match Cards.FindCard(t.cards[moving.0][moving.1], moving.2)
        case None => Rejected(CardNotFound)
        case Some(k) => Applied(PutCurrent(d, Relocate(t, moving.0, moving.1, k, row, col)), selected)
  }

  /**
   * `on_column_click` while a card is picked up: the card leaves its cell and is appended to the
   * clicked one. Where the clicked cell is missing from the card map the card is only removed.
   */
  function DropOnColumn(d: Document, selected: Option<string>, moving: (string, string, string),
                        row: string, col: string): Outcome
  {
    match CurrentTable(d)
    case None => Rejected(NoSpace)
    case Some(t) =>
      if !HasCell(t, moving.0, moving.1) then Rejected(MissingCell)
      else
        match Cards.FindCard(t.cards[moving.0][moving.1], moving.2)
        case None => Rejected(CardNotFound)
        case Some(k) => Applied(PutCurrent(d, Relocate(t, moving.0, moving.1, k, row, col)), selected)
  }

  /**
   * Dropping a picked-up card onto another existing cell, by clicking a card there or the column
   * itself, moves it exactly as `move_card_between_columns` does.
   */
  lemma DropAgreesWithMove(d: Document, selected: Option<string>, moving: (string, string, string),
                           row: string, col: string, front: string)
    requires CurrentTable(d).Some? && HasCell(CurrentTable(d).value, row, col)
    requires (moving.0, moving.1) != (row, col)
    ensures DropOnColumn(d, selected, moving, row, col)
         == MoveCardBetweenColumns(d, selected, moving.0, moving.1, moving.2, row, col)
    ensures Cards.FindCard(CurrentTable(d).value.cards[row][col], front).Some? ==>
              DropOnCard(d, selected, moving, row, col, front)
              == MoveCardBetweenColumns(d, selected, moving.0, moving.1, moving.2, row, col)
  {
  }

  /**
   * Dropping onto a missing cell still takes the card out of its own cell, after the history
   * entry, so the card is lost from the space; nothing but that cell changes, and the selection
   * stays.
   */
  lemma DropOnMissingColumn(d: Document, selected: Option<string>, moving: (string, string, string),
                            row: string, col: string)
    requires CurrentTable(d).Some? && !HasCell(CurrentTable(d).value, row, col)
    requires HasCell(CurrentTable(d).value, moving.0, moving.1)
    requires Cards.FindCard(CurrentTable(d).value.cards[moving.0][moving.1], moving.2).Some?
    ensures var o := DropOnColumn(d, selected, moving, row, col);
      var t := CurrentTable(d).value;
      var src := t.cards[moving.0][moving.1];
      var k := Cards.FindCard(src, moving.2).value;
      && o.Applied?
      && CardsOnlyChanged(d, o.doc)
      && CurrentTable(o.doc).value.cards[moving.0][moving.1] == src[..k] + src[k + 1..]
      && CellsKept(t, CurrentTable(o.doc).value, {(moving.0, moving.1)})
      && o.selected == selected
  {
    var t := CurrentTable(d).value;
    var src := t.cards[moving.0][moving.1];
    var k := Cards.FindCard(src, moving.2).value;
    RemoveFoundCard(src, moving.2, k);
  }

  /**
   * The write of `on_card_right_click`'s editor when it closes: the card's back becomes the edited
   * text (the card is looked up when the edit is applied).
   */
  function SetBack(d: Document, selected: Option<string>, row: string, col: string, front: string,
                   text: string): Outcome
  {
    match CurrentTable(d)
    case None => Rejected(NoSpace)
    case Some(t) =>
      if !HasCell(t, row, col) then Rejected(MissingCell)
      else
        var cell := t.cards[row][col];
        match Cards.FindCard(cell, front)
        case None => Rejected(CardNotFound)
        case Some(k) => Applied(PutCurrent(d, WithCell(t, row, col, cell[k := cell[k].(back := text)])), selected)
  }

  /** Writing the back changes only the back of the first card with that front; the selection stays. */
  lemma SetBackSpec(d: Document, selected: Option<string>, row: string, col: string, front: string, text: string)
    ensures var o := SetBack(d, selected, row, col, front, text);
      && (o.Applied? <==> CurrentTable(d).Some? && HasCell(CurrentTable(d).value, row, col)
                           && Cards.FindCard(CurrentTable(d).value.cards[row][col], front).Some?)
      && (o.Applied? ==>
            var t := CurrentTable(d).value;
            var cell, k := t.cards[row][col], Cards.FindCard(t.cards[row][col], front).value;
            && CardsOnlyChanged(d, o.doc)
            && CellsKept(t, CurrentTable(o.doc).value, {(row, col)})
            && var cell2 := CurrentTable(o.doc).value.cards[row][col];
            && |cell2| == |cell|
            && (forall i :: 0 <= i < |cell| && i != k ==> cell2[i] == cell[i])
            && cell2[k] == cell[k].(back := text)
            && o.selected == selected)
  {
    var o := SetBack(d, selected, row, col, front, text);
    if o.Applied? {
      var t := CurrentTable(d).value;
      var cell, k := t.cards[row][col], Cards.FindCard(t.cards[row][col], front).value;
      EditCell(d, row, col, cell[k := cell[k].(back := text)]);
    }
  }
}
