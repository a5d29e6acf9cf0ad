/**
 * The document of main/app.py: named spaces (the source calls them tables), each a grid of
 * rows by stage columns whose cells hold cards, plus the name of the space on screen.
 * Also the helpers every edit of the document shares.
 */
module Spaces {
  import opened Wrappers
  import Cards
  import Ratio

  /** The most rows a space may hold. */
  const MaxRows: nat := 9

  /** One space: its rows in order, its stage columns, the cards of every cell and each row's colour. */
  datatype Table = Table(rows: seq<string>, columns: seq<string>, cards: Ratio.CardMatrix,
                         rowColors: map<string, string>)

  /**
   * `self.data`: the spaces by name, their names in the order the dictionary keeps them
   * (insertion order), and `current_table`.
   */
  datatype Document = Document(tables: map<string, Table>, order: seq<string>, current: Option<string>)

  /** Why an edit changed nothing; each is an error message or an early return of the source. */
  datatype Reason =
    | NoSpace          // no current space
    | EmptyName        // a name that is empty after stripping
    | SpaceFull        // nine rows already
    | DuplicateName    // the name is taken
    | NoRows           // the space has no row to delete
    | UnknownRow       // the chosen row is not (or no longer) there
    | MissingChoice    // source, destination or row not chosen
    | SameSpace        // source and destination are the same space
    | InvalidSpace     // source or destination is not a space
    | ColumnsDiffer    // the two spaces have different columns
    | NoColumns        // the space has no column to put a card in
    | MissingCell      // the cell is not in the card map
    | CardNotFound     // no card with that front in the cell
    | SameCell         // a move onto the cell it starts from
    | NotNumeric       // the column count is not a digit string
    | TooFewColumns    // fewer than two columns
    | Cancelled        // the dialog was left without a value

  /**
   * What an edit does: nothing, for a reason; or it goes ahead, recording a history entry first,
   * and leaves the document `doc` with the selected row `selected`.
   */
  datatype Outcome = Rejected(reason: Reason) | Applied(doc: Document, selected: Option<string>)

  predicate Distinct<T(==)>(s: seq<T>)
  {
    forall i, j :: 0 <= i < j < |s| ==> s[i] != s[j]
  }

  /** `order` lists the keys of `tables`, each once. */
  ghost predicate Ordered(d: Document)
  {
    Distinct(d.order) && forall n :: n in d.tables <==> n in d.order
  }

  /**
   * The invariant the edits keep for a space: at most nine distinct rows; the card map and the
   * colour map have exactly the rows as keys; every row has a cell for every column.
   */
  ghost predicate WellFormed(t: Table)
  {
    |t.rows| <= MaxRows && Distinct(t.rows)
    && (forall r :: r in t.cards <==> r in t.rows)
    && (forall r :: r in t.rowColors <==> r in t.rows)
    && (forall r :: r in t.cards ==> Ratio.Covers(t.cards[r], t.columns))
  }

  /** The invariant of the whole document: ordered names, well-formed spaces, a current space that exists. */
  ghost predicate Consistent(d: Document)
  {
    Ordered(d)
    && (forall n :: n in d.tables ==> WellFormed(d.tables[n]))
    && (d.current.Some? ==> d.current.value in d.tables)
  }

  /** `get_current_table_data`: the current space, or `None` when there is none or its name is unknown. */
  function CurrentTable(d: Document): (t: Option<Table>)
    ensures t.Some? <==> d.current.Some? && d.current.value in d.tables
    ensures t.Some? ==> t.value == d.tables[d.current.value]
  {
    if d.current.None? then None
    else if d.current.value in d.tables then Some(d.tables[d.current.value])
    else None
  }

  /** `ensure_row_selection_valid`: the selection survives only when it names a row of the current space. */
  function ValidSelection(d: Document, selected: Option<string>): (r: Option<string>)
    ensures r == selected || r == None
    ensures r.Some? ==> CurrentTable(d).Some? && r.value in CurrentTable(d).value.rows
    ensures selected.Some? && CurrentTable(d).Some? && selected.value in CurrentTable(d).value.rows
            ==> r == selected
  {
    match CurrentTable(d)
    case None => None
    case Some(t) =>
      if t.rows == [] then None
      else if selected.None? || selected.value !in t.rows then None
      else selected
  }

  /** Validating a selection twice is validating it once. */
  lemma ValidSelectionIdempotent(d: Document, selected: Option<string>)
    ensures ValidSelection(d, ValidSelection(d, selected)) == ValidSelection(d, selected)
  {
  }

  /** The document with the current space replaced by `t`. */
  function PutCurrent(d: Document, t: Table): (d2: Document)
    requires CurrentTable(d).Some?
    ensures CurrentTable(d2) == Some(t)
    ensures d2.order == d.order && d2.current == d.current && d2.tables.Keys == d.tables.Keys
    ensures forall n :: n in d.tables && Some(n) != d.current ==> d2.tables[n] == d.tables[n]
  {
    d.(tables := d.tables[d.current.value := t])
  }

  /** The row `row` and column `col` name a cell of the card map. */
  predicate HasCell(t: Table, row: string, col: string)
  {
    row in t.cards && col in t.cards[row]
  }

  /** The space with cell (`row`, `col`) holding `cs`. */
  function WithCell(t: Table, row: string, col: string, cs: seq<Cards.Card>): (t2: Table)
    requires row in t.cards
    ensures HasCell(t2, row, col) && t2.cards[row][col] == cs
    ensures t2.rows == t.rows && t2.columns == t.columns && t2.rowColors == t.rowColors
    ensures t2.cards.Keys == t.cards.Keys
    ensures t2.cards[row].Keys == t.cards[row].Keys + {col}
    ensures forall r, c :: HasCell(t, r, c) && (r, c) != (row, col) ==> HasCell(t2, r, c) && t2.cards[r][c] == t.cards[r][c]
  {
    t.(cards := t.cards[row := t.cards[row][col := cs]])
  }

  /** Putting back a cell's old cards gives back the space. */
  lemma WithCellRestore(t: Table, row: string, col: string, cs: seq<Cards.Card>)
    requires HasCell(t, row, col)
    ensures WithCell(WithCell(t, row, col, cs), row, col, t.cards[row][col]) == t
  {
    var t2 := WithCell(t, row, col, cs);
    assert t2.cards[row][col := t.cards[row][col]] == t.cards[row];
    assert t2.cards[row := t.cards[row]] == t.cards;
  }

  /** Putting back the old current space gives back the document. */
  lemma PutCurrentRestore(d: Document, t: Table)
    requires CurrentTable(d).Some?
    ensures PutCurrent(PutCurrent(d, t), CurrentTable(d).value) == d
  {
    assert d.tables[d.current.value := t][d.current.value := d.tables[d.current.value]] == d.tables;
  }

  /** `list.remove(x)`: drop the first element equal to `x`; nothing when there is none. */
  function RemoveFirst<T(==)>(s: seq<T>, x: T): (r: seq<T>)
    ensures x !in s ==> r == s
    ensures x in s ==> |r| == |s| - 1
  {
    if s == [] then []
    else if s[0] == x then s[1..]
    else [s[0]] + RemoveFirst(s[1..], x)
  }

  /** Removing `x` where its first occurrence is at `k` cuts out position `k`. */
  lemma {:induction false} RemoveFirstAt<T>(s: seq<T>, x: T, k: nat)
    requires k < |s| && s[k] == x
    requires forall i :: 0 <= i < k ==> s[i] != x
    ensures RemoveFirst(s, x) == s[..k] + s[k + 1..]
  {
    if k > 0 {
      var tail := s[1..];
      assert s[0] != x;
      assert forall i :: 0 <= i < k - 1 ==> tail[i] == s[i + 1];
      RemoveFirstAt(tail, x, k - 1);
      assert RemoveFirst(s, x) == [s[0]] + (tail[..k - 1] + tail[k..]);
      assert tail[..k - 1] == s[1..k] by {
        assert |tail[..k - 1]| == |s[1..k]|;
        forall i | 0 <= i < k - 1
          ensures tail[..k - 1][i] == s[1..k][i]
        {
        }
      }
      assert tail[k..] == s[k + 1..];
      assert [s[0]] + s[1..k] == s[..k];
    }
  }

  /** Removing a name from a list of distinct names keeps them distinct and drops exactly that name. */
  lemma {:induction false} RemoveDistinct<T>(s: seq<T>, x: T)
    requires Distinct(s)
    ensures Distinct(RemoveFirst(s, x))
    ensures forall y :: y in RemoveFirst(s, x) <==> y in s && y != x
  {
    if s != [] {
      assert Distinct(s[1..]);
      RemoveDistinct(s[1..], x);
      assert s == [s[0]] + s[1..];
      if s[0] != x {
        var r := RemoveFirst(s, x);
        assert r == [s[0]] + RemoveFirst(s[1..], x);
        forall i, j | 0 <= i < j < |r|
          ensures r[i] != r[j]
        {
          if i == 0 {
            assert r[j] in RemoveFirst(s[1..], x);
          }
        }
      }
    }
  }

  /**
   * `cards.remove(card_dict)` on the card `find_card` returned: as no earlier card has that front,
   * the removed card is the found one.
   */
  lemma RemoveFoundCard(cell: seq<Cards.Card>, front: string, k: nat)
    requires Cards.FindCard(cell, front) == Some(k)
    ensures RemoveFirst(cell, cell[k]) == cell[..k] + cell[k + 1..]
  {
    RemoveFirstAt(cell, cell[k], k);
  }

  /**
   * `d2` differs from `d` at most in the cards of the current space, whose rows and their
   * cells all stay.
   */
  ghost predicate CardsOnlyChanged(d: Document, d2: Document)
    requires CurrentTable(d).Some?
  {
    var n := d.current.value;
    var t := d.tables[n];
    d2.current == d.current && d2.order == d.order && d2.tables.Keys == d.tables.Keys
    && (forall m :: m in d.tables && m != n ==> d2.tables[m] == d.tables[m])
    && var t2 := d2.tables[n];
    t2.rows == t.rows && t2.columns == t.columns && t2.rowColors == t.rowColors
    && t2.cards.Keys == t.cards.Keys
    && (forall r :: r in t.cards ==> t2.cards[r].Keys == t.cards[r].Keys)
  }

  /** Every cell of `t` except those in `changed` holds the same cards in `t2`. */
  ghost predicate CellsKept(t: Table, t2: Table, changed: set<(string, string)>)
  {
    forall r, c :: HasCell(t, r, c) && (r, c) !in changed ==> HasCell(t2, r, c) && t2.cards[r][c] == t.cards[r][c]
  }

  /** Editing cards only keeps the document consistent. */
  lemma CardsOnlyKeepsConsistent(d: Document, d2: Document)
    requires CurrentTable(d).Some? && CardsOnlyChanged(d, d2) && Consistent(d)
    ensures Consistent(d2)
  {
    var n := d.current.value;
    var t, t2 := d.tables[n], d2.tables[n];
    assert forall r :: r in t2.cards ==> Ratio.Covers(t2.cards[r], t2.columns) by {
      forall r | r in t2.cards
        ensures Ratio.Covers(t2.cards[r], t2.columns)
      {
        assert Ratio.Covers(t.cards[r], t.columns);
      }
    }
    assert WellFormed(t2);
    assert forall m :: m in d2.tables ==> WellFormed(d2.tables[m]) by {
      forall m | m in d2.tables
        ensures WellFormed(d2.tables[m])
      {
        if m != n {
          assert d2.tables[m] == d.tables[m];
        }
      }
    }
  }
}
