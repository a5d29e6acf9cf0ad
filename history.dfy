/**
 * The undo/redo history of main/app.py as values: snapshots of the document and the selected
 * row, the two stacks `history` and `future` bounded to `max_history` entries, and the bin of
 * document copies bounded to the last 100. The class in app.dfy keeps these as fields and is
 * proved to change them as the functions here say.
 */
module History {
  import opened Wrappers
  import opened Spaces

  /** `self.max_history`. */
  const MaxHistory: nat := 7
  /** The bin keeps the last 100 entries. */
  const MaxBin: nat := 100

  /** `_capture_history_state`: a (deep) copy of the document and the selected row. */
  datatype Snapshot = Snapshot(data: Document, selected: Option<string>)

  /** An entry of the bin: its time stamp, supplied by the caller, and a copy of the document. */
  datatype BinEntry = BinEntry(stamp: string, data: Document)

  /** The part of the app's state that history saves and restores. */
  datatype Session = Session(data: Document, selected: Option<string>, history: seq<Snapshot>,
                             future: seq<Snapshot>)

  /**
   * `stack.append(x)` followed by one `stack.pop(0)` when the stack has grown past `bound`:
   * the newest entry is last, and a stack that was within the bound stays within it.
   */
  function Push<T>(stack: seq<T>, x: T, bound: nat): (r: seq<T>)
    ensures |stack| <= bound ==> |r| <= bound
    ensures |stack| < bound ==> r == stack + [x]
    ensures bound > 0 ==> |r| > 0 && r[|r| - 1] == x
    ensures 0 < bound <= |stack| ==> r == stack[1..] + [x]
  {
    var s := stack + [x];
    if |s| > bound then s[1..] else s
  }

  /** The snapshot of the current state. */
  function Capture(s: Session): Snapshot
  {
    Snapshot(s.data, s.selected)
  }

  /** `_record_history`: the current state goes onto the bounded history; the redo chain is cleared. */
  function Record(s: Session): Session
  {
    s.(history := Push(s.history, Capture(s), MaxHistory), future := [])
  }

  /**
   * `_apply_history_state`: the snapshot's document becomes current, and its selected row
   * too, unless `ensure_row_selection_valid` clears it.
   */
  function ApplyState(s: Session, snap: Snapshot): Session
  {
    s.(data := snap.data, selected := ValidSelection(snap.data, snap.selected))
  }

  /** `undo_action`. */
  function Undo(s: Session): Session
  {
    if s.history == [] then s
    else
      var n := |s.history| - 1;
      ApplyState(s.(future := Push(s.future, Capture(s), MaxHistory), history := s.history[..n]), s.history[n])
  }

  /** `redo_action`. */
  function Redo(s: Session): Session
  {
    if s.future == [] then s
    else
      var n := |s.future| - 1;
      ApplyState(s.(history := Push(s.history, Capture(s), MaxHistory), future := s.future[..n]), s.future[n])
  }

  /** `_reset_history`. */
  function Reset(s: Session): Session
  {
    s.(history := [], future := [])
  }

  /** The effect of an edit whose history entry is skipped: an applied edit's document and selection. */
  function Adopt(s: Session, o: Outcome): Session
  {
    match o
    case Rejected(_) => s
    case Applied(d, sel) => s.(data := d, selected := sel)
  }

  /** An edit: a rejected one changes nothing; an applied one records history first. */
  function Commit(s: Session, o: Outcome): Session
  {
    if o.Rejected? then s else Adopt(Record(s), o)
  }

  /** `add_snapshot_to_bin`: a copy of the document is appended and only the last 100 entries are kept. */
  function AddToBin(bin: seq<BinEntry>, stamp: string, data: Document): seq<BinEntry>
  {
    var b := bin + [BinEntry(stamp, data)];
    if |b| > MaxBin then b[|b| - MaxBin..] else b
  }

  /** Both stacks within `max_history`. */
  predicate Bounded(s: Session)
  {
    |s.history| <= MaxHistory && |s.future| <= MaxHistory
  }

  /** A snapshot whose selected row is one that `ensure_row_selection_valid` keeps. */
  predicate Settled(snap: Snapshot)
  {
    snap.selected == ValidSelection(snap.data, snap.selected)
  }

  /** Every operation on the history keeps both stacks within `max_history`. */
  lemma BoundedKept(s: Session, o: Outcome)
    requires Bounded(s)
    ensures Bounded(Record(s)) && Bounded(Undo(s)) && Bounded(Redo(s)) && Bounded(Reset(s))
    ensures Bounded(Commit(s, o)) && Bounded(Adopt(s, o))
  {
  }

  /**
   * Recording keeps the document and selection, clears the redo chain and makes the current state
   * the newest history entry; the oldest entry is dropped only when the history was full.
   */
  lemma RecordSpec(s: Session)
    requires Bounded(s)
    ensures var r := Record(s);
      && r.data == s.data && r.selected == s.selected && r.future == []
      && r.history[|r.history| - 1] == Capture(s)
      && (|s.history| < MaxHistory ==> r.history == s.history + [Capture(s)])
      && (|s.history| == MaxHistory ==> r.history == s.history[1..] + [Capture(s)])
  {
  }

  /** Undo with an empty history and redo with an empty redo chain change nothing. */
  lemma NothingToUndo(s: Session)
    ensures s.history == [] ==> Undo(s) == s
    ensures s.future == [] ==> Redo(s) == s
  {
  }

  /**
   * Undo restores the newest history entry, taking it off the history, and puts the state it
   * replaces on the redo chain.
   */
  lemma UndoSpec(s: Session)
    requires s.history != []
    ensures var u := Undo(s); var last := s.history[|s.history| - 1];
      && u.data == last.data && u.selected == ValidSelection(last.data, last.selected)
      && u.history == s.history[..|s.history| - 1]
      && u.future[|u.future| - 1] == Capture(s)
  {
  }

  /**
   * Redo restores the newest redo entry, taking it off the redo chain, and puts the state it
   * replaces on the history.
   */
  lemma RedoSpec(s: Session)
    requires s.future != []
    ensures var r := Redo(s); var last := s.future[|s.future| - 1];
      && r.data == last.data && r.selected == ValidSelection(last.data, last.selected)
      && r.future == s.future[..|s.future| - 1]
      && r.history[|r.history| - 1] == Capture(s)
  {
  }

  /**
   * Whatever the stacks hold, redo right after an undo brings back the document the undo replaced,
   * and undo right after a redo the document the redo replaced; the selected row comes back too
   * when it is one that `ensure_row_selection_valid` keeps.
   */
  lemma UndoRedoKeepsDocument(s: Session)
    ensures s.history != [] ==> Redo(Undo(s)).data == s.data
    ensures s.history != [] && Settled(Capture(s)) ==> Redo(Undo(s)).selected == s.selected
    ensures s.future != [] ==> Undo(Redo(s)).data == s.data
    ensures s.future != [] && Settled(Capture(s)) ==> Undo(Redo(s)).selected == s.selected
  {
  }

  /**
   * Redo right after undo gives back the state before the undo, when the selections involved
   * are valid and the redo chain had room (a full one loses its oldest entry).
   */
  lemma RedoAfterUndo(s: Session)
    requires s.history != [] && Bounded(s) && |s.future| < MaxHistory
    requires Settled(Capture(s)) && Settled(s.history[|s.history| - 1])
    ensures Redo(Undo(s)) == s
  {
    var n := |s.history| - 1;
    var u := Undo(s);
    assert u.future == s.future + [Capture(s)];
    assert u.future[..|u.future| - 1] == s.future;
    assert Capture(u) == s.history[n];
    assert s.history[..n] + [s.history[n]] == s.history;
  }

  /**
   * Undo right after redo gives back the state before the redo, when the selections involved
   * are valid and the history had room.
   */
  lemma UndoAfterRedo(s: Session)
    requires s.future != [] && Bounded(s) && |s.history| < MaxHistory
    requires Settled(Capture(s)) && Settled(s.future[|s.future| - 1])
    ensures Undo(Redo(s)) == s
  {
    var n := |s.future| - 1;
    var r := Redo(s);
    assert r.history == s.history + [Capture(s)];
    assert r.history[..|r.history| - 1] == s.history;
    assert Capture(r) == s.future[n];
    assert s.future[..n] + [s.future[n]] == s.future;
  }

  /**
   * Every applied edit can be undone: undo after it gives back the document and the (valid)
   * selection from before it, with the edit's result as the only redo entry.
   */
  lemma UndoAfterCommit(s: Session, d: Document, sel: Option<string>)
    requires Bounded(s) && |s.history| < MaxHistory && Settled(Capture(s))
    ensures Undo(Commit(s, Applied(d, sel))) == s.(future := [Snapshot(d, sel)])
  {
    var c := Commit(s, Applied(d, sel));
    assert c.history == s.history + [Capture(s)];
    assert c.history[..|c.history| - 1] == s.history;
  }

  /** A rejected edit records nothing: the redo chain survives it. */
  lemma RejectedKeepsFuture(s: Session, reason: Reason)
    ensures Commit(s, Rejected(reason)).future == s.future
    ensures Commit(s, Rejected(reason)) == s
  {
  }

  /**
   * The bin holds at most the last 100 entries, ends with the new copy, and drops nothing while
   * it has room.
   */
  lemma AddToBinSpec(bin: seq<BinEntry>, stamp: string, data: Document)
    ensures var b := AddToBin(bin, stamp, data);
      && |b| <= MaxBin && |b| > 0 && b[|b| - 1] == BinEntry(stamp, data)
      && (|bin| < MaxBin ==> b == bin + [BinEntry(stamp, data)])
      && (|bin| >= MaxBin ==> b == bin[|bin| + 1 - MaxBin..] + [BinEntry(stamp, data)])
  {
  }
}
