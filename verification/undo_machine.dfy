/** The editor's undo and redo stacks, with the two-keystroke insert automaton that sits on top of them. */
module UndoMachine {
  import opened Common
  import opened PieceTables
  import opened Documents
  import opened Histories

  // `now` is `before` with the cell `Add(addLen)` inserted at `at`, carrying the replacement `v`.
  ghost predicate NewestTyped(before: DocState, now: DocState, at: nat, addLen: nat, v: Option<Byte>) {
    at <= |before.cells| && now == WithEntry(InsertCells(before, at, [Add(addLen)]), Add(addLen), v)
  }

  ghost predicate Committable(before: DocState, now: DocState, at: nat, addLen: nat) {
    exists v :: NewestTyped(before, now, at, addLen, v)
  }

  class App {
    const document: Document
    var undoStack: seq<UndoStep>
    var redoStack: seq<UndoStep>
    var cursor: nat
    var mode: Mode
    // The mode the command line goes back to.
    var commandReturn: Option<Mode>
    // The document states before, between and after the steps; `undoStack` reaches the current one.
    ghost var timeline: seq<DocState>
    // What the document showed when editing began.
    ghost const base: seq<Slot>

    // The steps in the order in which they were made: done steps, then undone ones.
    ghost function Steps(): seq<UndoStep>
      reads this
    {
      undoStack + Reverse(redoStack)
    }

    // Everything except the link between the stacks and the current document state.
    ghost predicate Ledger(addLen: nat)
      reads this, document, document.pieces
    {
      && document.Valid()
      && History(Steps(), timeline, document.fixedSize, |document.file|, addLen)
      && (document.readonly ==> Steps() == [])
      && Display(timeline[0]) == base
    }

    // A half-typed byte is the newest cell; it is displayed but not on the undo stack yet.
    ghost predicate HalfTyped(p: PendingInsert)
      reads this, document, document.pieces
    {
      var added := document.pieces.addBuffer;
      && redoStack == [] && !document.readonly && !document.fixedSize
      && added != [] && added[|added| - 1] == p.highNibble * 16
      && Ledger(|added| - 1)
      && p.offset <= |timeline[|undoStack|].cells|
      && document.State() == InsertCells(timeline[|undoStack|], p.offset, [Add(|added| - 1)])
    }

    ghost predicate Valid()
      reads this, document, document.pieces
    {
      && (commandReturn.Some? ==> commandReturn.value.Settled())
      && if mode.InsertHex? && mode.pending.Some? then HalfTyped(mode.pending.value)
         else Ledger(|document.pieces.addBuffer|) && document.State() == timeline[|undoStack|]
    }

    constructor (doc: Document)
      requires doc.Valid() && KnownState(doc.State(), |doc.file|, |doc.pieces.addBuffer|)
      ensures Valid() && document == doc && undoStack == [] && redoStack == [] && mode == Normal
      ensures base == Display(doc.State())
    {
      document := doc;
      undoStack, redoStack := [], [];
      cursor := 0;
      mode := Normal;
      commandReturn := None;
      timeline := [doc.State()];
      base := Display(doc.State());
    }

    // The cursor may stand one past the end only in the hex editing modes of a resizable document.
    function ClampCursorForMode(offset: nat, m: Mode): nat
      reads document.pieces
    {
      var len := document.pieces.len;
      if !document.fixedSize && (m.EditHex? || m.InsertHex?) then Min(offset, len)
      else if len == 0 then 0
      else Min(offset, len - 1)
    }

    // A cursor may stand on a byte, and in those modes one past the last.
    predicate CursorFits(offset: nat, m: Mode)
      reads document.pieces
    {
      offset < document.pieces.len || (offset == document.pieces.len && !document.fixedSize && (m.EditHex? || m.InsertHex?))
    }

    /** Clamping gives the last place up to the offset where the cursor may stand, and 0 where there is none. */
    lemma {:induction false} CursorClamped(offset: nat, m: Mode)
      ensures
        var r := ClampCursorForMode(offset, m);
        && r <= offset && (CursorFits(r, m) || r == 0)
        && forall o: nat :: o <= offset && CursorFits(o, m) ==> o <= r
    {
    }

    // Undo the ops of one step, newest first.
    method UndoStepOps(ops: seq<EditOp>, ghost s: DocState) returns (r: Result<(), Error>)
      requires document.Valid() && !document.readonly
      requires Chained(ops, s, document.State())
      requires forall i :: 0 <= i < |ops| ==> Allowed(ops[i], document.fixedSize)
      modifies document, document.pieces
      ensures document.Valid() && r == Ok(()) && document.State() == s
      ensures document.pieces.addBuffer == old(document.pieces.addBuffer)
    {
      var j := |ops|;
      assert ops[..j] == ops;
      while j > 0
        invariant 0 <= j <= |ops| && document.Valid() && Chained(ops[..j], s, document.State())
        invariant document.pieces.addBuffer == old(document.pieces.addBuffer)
      {
        assert ButLast(ops[..j]) == ops[..j - 1] && LastOp(ops[..j]) == ops[j - 1];
        ghost var mid :| Chained(ButLast(ops[..j]), s, mid) && Links(LastOp(ops[..j]), mid, document.State());
        LinksExact(ops[j - 1], mid, document.State());
        r := document.UndoEditOp(ops[j - 1]);
        if r.Err? {
          return;
        }
        j := j - 1;
      }
      r := Ok(());
    }

    // Replay the ops of one step, oldest first.
    method ApplyStepOps(ops: seq<EditOp>, ghost t: DocState) returns (r: Result<(), Error>)
      requires document.Valid() && !document.readonly
      requires Chained(ops, document.State(), t)
      requires forall i :: 0 <= i < |ops| ==> Allowed(ops[i], document.fixedSize)
      modifies document, document.pieces
      ensures document.Valid() && r == Ok(()) && document.State() == t
      ensures document.pieces.addBuffer == old(document.pieces.addBuffer)
    {
      assert ops[0..] == ops;
      for j := 0 to |ops|
        invariant document.Valid() && Chained(ops[j..], document.State(), t)
        invariant document.pieces.addBuffer == old(document.pieces.addBuffer)
      {
        ghost var mid := ChainedFront(ops[j..], document.State(), t);
        LinksExact(ops[j], document.State(), mid);
        r := document.ApplyEditOp(ops[j]);
        if r.Err? {
          return;
        }
        assert ops[j..][1..] == ops[j + 1..];
      }
      r := Ok(());
    }

    // Pop one step, undo it, and put it on the other stack.
    method UndoOne(restoreMode: bool) returns (r: Result<(), Error>)
      requires Valid() && mode.Settled() && undoStack != []
      modifies this, document, document.pieces
      ensures r == Ok(()) && Valid() && mode.Settled()
      ensures timeline == old(timeline) && Steps() == old(Steps())
      ensures undoStack == old(undoStack)[..|old(undoStack)| - 1]
      ensures document.pieces.addBuffer == old(document.pieces.addBuffer)
      ensures
        var step := old(undoStack)[|undoStack|];
        && cursor == ClampCursorForMode(step.cursorBefore, step.modeBefore)
        && mode == if restoreMode then step.modeBefore else old(mode)
    {
      hide PieceTable.Valid, PieceTable.Cells, Chained;
      var k := |undoStack| - 1;
      var step := undoStack[k];
      assert Steps()[k] == step;
      assert GoodOps(step.ops, document.fixedSize, |document.file|, |document.pieces.addBuffer|);
      assert Chained(step.ops, timeline[k], timeline[k + 1]);
      undoStack := undoStack[..k];
      r := UndoStepOps(step.ops, timeline[k]);
      if r.Err? {
        return;
      }
      cursor := ClampCursorForMode(step.cursorBefore, step.modeBefore);
      if restoreMode {
        mode := step.modeBefore;
      }
      assert Reverse(redoStack + [step]) == [step] + Reverse(redoStack);
      redoStack := redoStack + [step];
      assert Steps() == old(Steps());
    }

    // Pop one undone step, replay it, and put it back on the undo stack.
    method RedoOne(restoreMode: bool) returns (r: Result<(), Error>)
      requires Valid() && mode.Settled() && redoStack != []
      modifies this, document, document.pieces
      ensures r == Ok(()) && Valid() && mode.Settled()
      ensures timeline == old(timeline) && Steps() == old(Steps())
      ensures redoStack == old(redoStack)[..|old(redoStack)| - 1]
      ensures document.pieces.addBuffer == old(document.pieces.addBuffer)
      ensures
        var step := old(redoStack)[|redoStack|];
        && cursor == ClampCursorForMode(step.cursorAfter, step.modeAfter)
        && mode == if restoreMode then step.modeAfter else old(mode)
    {
      hide PieceTable.Valid, PieceTable.Cells, Chained;
      var k, j := |undoStack|, |redoStack| - 1;
      var step := redoStack[j];
      assert Steps()[k] == step;
      assert GoodOps(step.ops, document.fixedSize, |document.file|, |document.pieces.addBuffer|);
      assert Chained(step.ops, timeline[k], timeline[k + 1]);
      assert Reverse(redoStack) == [step] + Reverse(redoStack[..j]);
      redoStack := redoStack[..j];
      r := ApplyStepOps(step.ops, timeline[k + 1]);
      if r.Err? {
        return;
      }
      cursor := ClampCursorForMode(step.cursorAfter, step.modeAfter);
      if restoreMode {
        mode := step.modeAfter;
      }
      undoStack := undoStack + [step];
      assert Steps() == old(Steps());
    }

    method EnterNormal()
      requires Valid() && mode.Settled()
      modifies `mode, `cursor
      ensures Valid() && mode == Normal && cursor == ClampCursorForMode(old(cursor), Normal)
      ensures Steps() == old(Steps())
    {
      hide PieceTable.Valid, PieceTable.Cells, History, Reverse;
      mode := Normal;
      cursor := ClampCursorForMode(cursor, Normal);
    }

    /** Undo never fails and moves the document back along the timeline, one state per step. */
    method Undo(steps: nat, restoreMode: bool) returns (r: Result<(), Error>)
      requires Valid() && mode.Settled()
      modifies this, document, document.pieces
      ensures r == Ok(()) && Valid() && mode.Settled()
      ensures timeline == old(timeline) && Steps() == old(Steps())
      ensures undoStack == old(undoStack)[..SatSub(|old(undoStack)|, steps)]
      ensures document.pieces.addBuffer == old(document.pieces.addBuffer)
      ensures !restoreMode ==> mode == Normal
      ensures restoreMode && old(undoStack) != [] && steps > 0 ==>
        var last := old(undoStack)[|undoStack|];
        mode == last.modeBefore && cursor == ClampCursorForMode(last.cursorBefore, last.modeBefore)
      ensures restoreMode && (old(undoStack) == [] || steps == 0) ==> mode == old(mode) && cursor == old(cursor)
      ensures !restoreMode && (old(undoStack) == [] || steps == 0) ==> cursor == ClampCursorForMode(old(cursor), Normal)
      ensures !restoreMode && old(undoStack) != [] && steps > 0 ==>
        var last := old(undoStack)[|undoStack|];
        cursor == ClampCursorForMode(ClampCursorForMode(last.cursorBefore, last.modeBefore), Normal)
    {
      hide PieceTable.Valid, PieceTable.Cells, History, Reverse, App.ClampCursorForMode, App.Ledger;
      var undone := 0;
      while undone < steps && undoStack != []
        invariant 0 <= undone <= steps && Valid() && mode.Settled()
        invariant timeline == old(timeline) && Steps() == old(Steps())
        invariant undone <= |old(undoStack)| && undoStack == old(undoStack)[..|old(undoStack)| - undone]
        invariant document.pieces.addBuffer == old(document.pieces.addBuffer)
        invariant undone > 0 ==>
          var last := old(undoStack)[|undoStack|];
          (restoreMode ==> mode == last.modeBefore) && cursor == ClampCursorForMode(last.cursorBefore, last.modeBefore)
        invariant undone == 0 ==> mode == old(mode) && cursor == old(cursor)
      {
        r := UndoOne(restoreMode);
        if r.Err? {
          return;
        }
        undone := undone + 1;
      }
      if !restoreMode {
        EnterNormal();
      }
      r := Ok(());
    }

    /**
     * Redo never fails and moves the document forward along the same timeline. While a byte is half typed
     * the redo stack is empty and a redo that restores modes changes nothing. A redo that goes to normal mode
     * comes from the command line, which has committed the byte.
     */
    method Redo(steps: nat, restoreMode: bool) returns (r: Result<(), Error>)
      requires Valid() && (restoreMode || mode.Settled())
      modifies this, document, document.pieces
      ensures r == Ok(()) && Valid()
      ensures timeline == old(timeline) && Steps() == old(Steps())
      ensures redoStack == old(redoStack)[..SatSub(|old(redoStack)|, steps)]
      ensures document.pieces.addBuffer == old(document.pieces.addBuffer)
      ensures old(mode).Settled() ==> mode.Settled()
      ensures !restoreMode ==> mode == Normal
      ensures restoreMode && old(redoStack) != [] && steps > 0 ==>
        var last := old(redoStack)[|redoStack|];
        mode == last.modeAfter && cursor == ClampCursorForMode(last.cursorAfter, last.modeAfter)
      ensures restoreMode && (old(redoStack) == [] || steps == 0) ==> mode == old(mode) && cursor == old(cursor)
      ensures !restoreMode && (old(redoStack) == [] || steps == 0) ==> cursor == ClampCursorForMode(old(cursor), Normal)
      ensures !restoreMode && old(redoStack) != [] && steps > 0 ==>
        var last := old(redoStack)[|redoStack|];
        cursor == ClampCursorForMode(ClampCursorForMode(last.cursorAfter, last.modeAfter), Normal)
      ensures !old(mode).Settled() ==>
        mode == old(mode) && cursor == old(cursor) && undoStack == old(undoStack) && document.State() == old(document.State())
    {
      hide PieceTable.Valid, PieceTable.Cells, History, Reverse, App.ClampCursorForMode, App.Ledger;
      var redone := 0;
      while redone < steps && redoStack != []
        invariant 0 <= redone <= steps && Valid() && (old(mode).Settled() ==> mode.Settled())
        invariant timeline == old(timeline) && Steps() == old(Steps())
        invariant redone <= |old(redoStack)| && redoStack == old(redoStack)[..|old(redoStack)| - redone]
        invariant document.pieces.addBuffer == old(document.pieces.addBuffer)
        invariant redone == 0 ==>
          mode == old(mode) && cursor == old(cursor) && undoStack == old(undoStack) && document.State() == old(document.State())
        invariant redone > 0 ==>
          var last := old(redoStack)[|redoStack|];
          (restoreMode ==> mode == last.modeAfter) && cursor == ClampCursorForMode(last.cursorAfter, last.modeAfter)
      {
        r := RedoOne(restoreMode);
        if r.Err? {
          return;
        }
        redone := redone + 1;
      }
      if !restoreMode {
        EnterNormal();
      }
      r := Ok(());
    }

    /** The redo key. With a byte half typed there is nothing to redo, and nothing changes. */
    method HandleRedoAction(steps: nat) returns (r: Result<(), Error>)
      requires Valid()
      modifies this, document, document.pieces
      ensures r == Ok(()) && Valid()
      ensures timeline == old(timeline) && Steps() == old(Steps())
      ensures redoStack == old(redoStack)[..SatSub(|old(redoStack)|, steps)]
      ensures document.pieces.addBuffer == old(document.pieces.addBuffer)
      ensures !old(mode).Settled() ==>
        mode == old(mode) && cursor == old(cursor) && undoStack == old(undoStack) && document.State() == old(document.State())
      ensures old(mode).Settled() ==> mode.Settled() && document.State() == timeline[|undoStack|]
      ensures old(redoStack) == [] || steps == 0 ==> mode == old(mode) && cursor == old(cursor)
      ensures old(redoStack) != [] && steps > 0 ==>
        var last := old(redoStack)[|redoStack|];
        mode == last.modeAfter && cursor == ClampCursorForMode(last.cursorAfter, last.modeAfter)
    {
      r := Redo(steps, true);
    }

    /** Record an edit that was just made; records without effect leave both stacks alone. */
    method PushUndoStep(ops: seq<EditOp>, cursorBefore: nat, modeBefore: Mode, cursorAfter: nat, modeAfter: Mode)
      requires Ledger(|document.pieces.addBuffer|)
      requires Chained(ops, timeline[|undoStack|], document.State())
      requires AnyEffect(ops) ==>
        && GoodOps(ops, document.fixedSize, |document.file|, |document.pieces.addBuffer|)
        && KnownState(document.State(), |document.file|, |document.pieces.addBuffer|)
        && !document.readonly
      requires modeBefore.Settled() && modeAfter.Settled()
      modifies `undoStack, `redoStack, `timeline
      ensures Ledger(|document.pieces.addBuffer|) && document.State() == timeline[|undoStack|]
      ensures
        if AnyEffect(ops) then
          && undoStack == old(undoStack) + [UndoStep(cursorBefore, modeBefore, cursorAfter, modeAfter, ops)]
          && redoStack == []
          && timeline == old(timeline)[..|old(undoStack)| + 1] + [document.State()]
        else
          undoStack == old(undoStack) && redoStack == old(redoStack) && timeline == old(timeline)
    {
      hide PieceTable.Valid, PieceTable.Cells, Chained, KnownState, GoodOps;
      if !AnyEffect(ops) {
        NoEffectListStays(ops, timeline[|undoStack|], document.State());
        return;
      }
      ghost var k, addLen := |undoStack|, |document.pieces.addBuffer|;
      var step := UndoStep(cursorBefore, modeBefore, cursorAfter, modeAfter, ops);
      HistoryTruncate(Steps(), timeline, document.fixedSize, |document.file|, addLen, k);
      assert Steps()[..k] == undoStack;
      HistoryExtend(undoStack, timeline[..k + 1], document.fixedSize, |document.file|, addLen, step, document.State());
      undoStack := undoStack + [step];
      redoStack := [];
      timeline := timeline[..k + 1] + [document.State()];
      assert Steps() == undoStack;
    }

    // Record a single operation.
    method PushOne(op: EditOp, cursorBefore: nat, modeBefore: Mode, cursorAfter: nat, modeAfter: Mode)
      requires Ledger(|document.pieces.addBuffer|)
      requires Links(op, timeline[|undoStack|], document.State())
      requires HasEffect(op) ==>
        && Allowed(op, document.fixedSize) && KnownOp(op, |document.file|, |document.pieces.addBuffer|)
        && KnownState(document.State(), |document.file|, |document.pieces.addBuffer|)
        && !document.readonly
      requires modeBefore.Settled() && modeAfter.Settled()
      modifies `undoStack, `redoStack, `timeline
      ensures Ledger(|document.pieces.addBuffer|) && document.State() == timeline[|undoStack|]
      ensures HasEffect(op) ==>
        && undoStack == old(undoStack) + [UndoStep(cursorBefore, modeBefore, cursorAfter, modeAfter, [op])]
        && redoStack == []
        && timeline == old(timeline)[..|old(undoStack)| + 1] + [document.State()]
      ensures !HasEffect(op) ==>
        undoStack == old(undoStack) && redoStack == old(redoStack) && timeline == old(timeline)
    {
      hide PieceTable.Valid, PieceTable.Cells, Reverse, Links, KnownState, Chained;
      ChainedOne(op, timeline[|undoStack|], document.State());
      assert AnyEffect([op]) <==> HasEffect(op) by { assert [op][0] == op; }
      PushUndoStep([op], cursorBefore, modeBefore, cursorAfter, modeAfter);
    }

    lemma {:induction false} LenShown()
      requires Valid()
      ensures document.pieces.len == |document.State().cells|
    {
    }

    // The current state is one of the known ones.
    lemma {:induction false} CurrentStateKnown()
      requires Valid() && mode.Settled()
      ensures KnownState(document.State(), |document.file|, |document.pieces.addBuffer|)
    {
    }

    /** Tombstone the byte under the cursor. */
    method DeleteCurrent() returns (r: Result<(), Error>)
      requires Valid() && mode.Settled()
      modifies this, document, document.pieces
      ensures Valid() && mode == old(mode) && cursor == old(cursor)
      ensures
        var s := old(document.State());
        var fresh_ := !document.readonly && !document.fixedSize && cursor < |s.cells| && s.cells[cursor] !in s.tombstones;
        if fresh_ then
          && document.State() == s.(tombstones := s.tombstones + {s.cells[cursor]})
          && undoStack == old(undoStack) + [UndoStep(cursor, mode, cursor, mode, [TombstoneDelete([s.cells[cursor]])])]
          && redoStack == [] && timeline[|old(undoStack)|] == s
        else
          document.State() == s && undoStack == old(undoStack) && redoStack == old(redoStack) && timeline == old(timeline)
    {
      ghost var s := document.State();
      var marked := document.MarkTombstone(cursor);
      if marked.Err? {
        return Err(marked.error);
      }
      if marked.value.None? {
        assert document.State() == s;
        return Ok(());
      }
      var op := TombstoneDelete([marked.value.value]);
      assert [marked.value.value][0] == marked.value.value;
      assert ToSet([marked.value.value]) == {marked.value.value};
      PushOne(op, cursor, mode, cursor, mode);
      return Ok(());
    }

    /** Tombstone a selected display range. */
    method DeleteSelection(start: nat, end: nat) returns (r: Result<(), Error>)
      requires Valid() && mode.Settled()
      modifies this, document, document.pieces
      ensures Valid()
      ensures r.Err? ==> document.State() == old(document.State()) && undoStack == old(undoStack) && redoStack == old(redoStack)
      ensures r.Err? ==> mode == old(mode) && cursor == old(cursor)
      ensures r.Ok? ==>
        var s := old(document.State());
        var range := DisplayRange(s.cells, start, end);
        && document.State() == s.(tombstones := s.tombstones + ToSet(range))
        && mode == Normal && cursor == ClampCursorForMode(start, Normal)
        && if Undeleted(range, s.tombstones) != [] then
             && OneStepMore(old(undoStack), undoStack, start, Visual, cursor, Normal)
             && redoStack == [] && timeline[|old(undoStack)|] == s
           else undoStack == old(undoStack) && redoStack == old(redoStack)
    {
      hide PieceTable.Valid, PieceTable.Cells, Reverse, Undeleted, ToSet, Chained;
      ghost var s := document.State();
      var deleted := document.TombstoneDeleteRange(start, end);
      if deleted.Err? {
        return Err(deleted.error);
      }
      ghost var range := DisplayRange(s.cells, start, end);
      var op := TombstoneDelete(deleted.value);
      TombstoneRecordLinks(s, range);
      RangeKnown(s, start, end, |document.file|, |document.pieces.addBuffer|);
      cursor := ClampCursorForMode(start, Normal);
      mode := Normal;
      PushOne(op, start, Visual, cursor, mode);
      return Ok(());
    }

    /** Insert a run of bytes at the cursor. */
    method PasteInsert(bytes: seq<Byte>) returns (r: Result<nat, Error>)
      requires Valid() && mode.Settled()
      modifies this, document, document.pieces
      ensures Valid() && mode == old(mode)
      ensures
        var s := old(document.State());
        var ids := FreshCells(|old(document.pieces.addBuffer)|, |bytes|);
        var fault := InsertFault(s, old(cursor), document.readonly, document.fixedSize);
        if bytes == [] || fault.Some? then
          && document.State() == s && undoStack == old(undoStack) && redoStack == old(redoStack) && cursor == old(cursor)
          && r == if bytes == [] && !document.readonly then Ok(0) else Err(fault.value)
        else
          && r == Ok(|bytes|) && cursor == ClampCursorForMode(old(cursor) + |bytes| - 1, mode)
          && OneStepMore(old(undoStack), undoStack, old(cursor), mode, cursor, mode)
          && document.State() == InsertCells(s, old(cursor), ids)
          && document.pieces.addBuffer == old(document.pieces.addBuffer) + bytes
          && |undoStack| == |old(undoStack)| + 1 && undoStack[|old(undoStack)|].ops == [Insert(old(cursor), ids)]
          && redoStack == [] && timeline[|old(undoStack)|] == s
    {
      hide PieceTable.Valid, PieceTable.Cells, Chained;
      ghost var s := document.State();
      if document.readonly {
        return Err(ReadOnly);
      }
      if bytes == [] {
        return Ok(0);
      }
      var cursorBefore := cursor;
      ghost var addLen := |document.pieces.addBuffer|;
      var inserted := document.InsertBytes(cursorBefore, bytes);
      if inserted.Err? {
        return Err(inserted.error);
      }
      var op := Insert(cursorBefore, inserted.value);
      HistoryGrows(Steps(), timeline, document.fixedSize, |document.file|, addLen, addLen + |bytes|);
      KnownStateGrows(s, |document.file|, addLen, addLen + |bytes|);
      FreshInsertKeepsIds(s.cells, |document.file|, addLen, cursorBefore, |bytes|);
      var cursorAfter := ClampCursorForMode(cursorBefore + |bytes| - 1, mode);
      PushOne(op, cursorBefore, mode, cursorAfter, mode);
      cursor := cursorAfter;
      return Ok(|bytes|);
    }

    /**
     * Move a half-typed byte onto the undo stack. Older states learn of its replacement, if it has one;
     * none of them displays the cell.
     */
    method CommitPendingInsert() returns (r: Option<nat>)
      requires CanCommit()
      modifies `undoStack, `redoStack, `timeline, `mode, document.pieces`prefixEnds, document.pieces`prefixDirty
      ensures Valid() && mode.Settled()
      ensures document.State() == old(document.State()) && document.pieces.addBuffer == old(document.pieces.addBuffer)
      ensures old(mode.Settled()) ==>
        r == None && mode == old(mode) && undoStack == old(undoStack) && redoStack == old(redoStack) && timeline == old(timeline)
      ensures !old(mode.Settled()) ==>
        var p := old(mode).pending.value;
        var newest := Add(|document.pieces.addBuffer| - 1);
        && r == Some(p.offset) && mode == InsertHex(None) && redoStack == []
        && undoStack == old(undoStack) + [UndoStep(p.offset, InsertHex(None), cursor, InsertHex(None), [Insert(p.offset, [newest])])]
        && |timeline| == |old(timeline)| + 1
        && Display(timeline[|old(undoStack)|]) == Display(old(timeline)[|old(undoStack)|])
    {
      hide PieceTable.Valid, PieceTable.Cells, Reverse, Display, KnownState, Links;
      if mode.Settled() {
        return None;
      }
      var p := mode.pending.value;
      ghost var addLen := |document.pieces.addBuffer| - 1;
      var found := document.pieces.Resolve(p.offset);
      var id := found.value;
      assert id == Add(addLen);
      LearnNewestEntry(p.offset);
      PushOne(Insert(p.offset, [id]), p.offset, InsertHex(None), cursor, InsertHex(None));
      mode := InsertHex(None);
      return Some(p.offset);
    }

    // Give the newest cell its replacement in every state of the timeline; no state shows it yet.
    ghost method LearnNewestEntry(at: nat)
      requires CanCommit() && !mode.Settled() && at == mode.pending.value.offset
      modifies `timeline
      ensures Ledger(|document.pieces.addBuffer|) && |timeline| == |old(timeline)|
      ensures Display(timeline[|undoStack|]) == Display(old(timeline)[|undoStack|])
      ensures Links(Insert(at, [Add(|document.pieces.addBuffer| - 1)]), timeline[|undoStack|], document.State())
      ensures KnownState(document.State(), |document.file|, |document.pieces.addBuffer|)
    {
      var addLen := |document.pieces.addBuffer| - 1;
      var before, now := timeline[|undoStack|], document.State();
      var entry := Lookup(now.replacements, Add(addLen));
      HalfTypedEntry(before, now, at, addLen, |document.file|);
      HistoryWithEntry(Steps(), timeline, document.fixedSize, |document.file|, addLen, entry);
      AppendKnown(before, at, |document.file|, addLen);
      EntryStateKnown(InsertCells(before, at, [Add(addLen)]), Add(addLen), entry, |document.file|, addLen + 1);
      timeline := AllWithEntry(timeline, Add(addLen), entry);
    }

    // The half-typed byte may already carry its low nibble, as a replacement on the newest cell.
    ghost predicate CanCommit()
      reads this, document, document.pieces
    {
      if mode.Settled() then Valid()
      else
        var p := mode.pending.value;
        var added := document.pieces.addBuffer;
        && redoStack == [] && !document.readonly && !document.fixedSize && added != []
        && (commandReturn.Some? ==> commandReturn.value.Settled())
        && Ledger(|added| - 1)
        && p.offset <= |timeline[|undoStack|].cells|
        && Committable(timeline[|undoStack|], document.State(), p.offset, |added| - 1)
    }

    // The first digit inserts the byte `0xN0`; any redo history is dropped even if the insertion fails.
    method BeginInsert(value: Nibble) returns (r: Result<(), Error>)
      requires Valid() && mode == InsertHex(None)
      modifies this, document, document.pieces
      ensures Valid() && undoStack == old(undoStack) && redoStack == [] && cursor == old(cursor)
      ensures
        var s := old(document.State());
        match InsertFault(s, old(cursor), document.readonly, document.fixedSize)
        case Some(e) => r == Err(e) && document.State() == s && mode == old(mode)
        case None =>
          && r == Ok(()) && document.State() == InsertCells(s, old(cursor), [Add(|old(document.pieces.addBuffer)|)])
          && document.pieces.addBuffer == old(document.pieces.addBuffer) + [value * 16]
          && mode == InsertHex(Some(PendingInsert(old(cursor), value)))
    {
      hide PieceTable.Valid, PieceTable.Cells, Chained;
      var offset := cursor;
      ghost var addLen, k := |document.pieces.addBuffer|, |undoStack|;
      HistoryTruncate(Steps(), timeline, document.fixedSize, |document.file|, addLen, k);
      assert Steps()[..k] == undoStack;
      redoStack := [];
      timeline := timeline[..k + 1];
      assert Steps() == undoStack;
      if document.readonly {
        return Err(ReadOnly);
      }
      var inserted := document.InsertBytes(offset, [value * 16]);
      if inserted.Err? {
        return Err(inserted.error);
      }
      assert FreshCells(addLen, 1) == [Add(addLen)];
      mode := InsertHex(Some(PendingInsert(offset, value)));
      return Ok(());
    }

    // The second digit fills in the low nibble and commits the byte.
    method CompleteInsert(value: Nibble) returns (r: Result<(), Error>)
      requires Valid() && !mode.Settled()
      modifies this, document, document.pieces
      ensures Valid() && r == Ok(()) && mode == InsertHex(None) && redoStack == []
      ensures
        var p := old(mode).pending.value;
        var added := document.pieces.addBuffer;
        && cursor == p.offset + 1
        && added == old(document.pieces.addBuffer) && added != []
        && undoStack == Committed(old(undoStack), old(mode), cursor, |added|)
        && Display(timeline[|old(undoStack)|]) == Display(old(timeline)[|old(undoStack)|])
        && document.State().cells == old(document.State()).cells
        && document.ShownByte(document.replacements, Add(|added| - 1)) == p.highNibble * 16 + value
        && (forall id :: id != Add(|added| - 1) ==>
              Lookup(document.replacements, id) == Lookup(old(document.replacements), id))
    {
      hide PieceTable.Valid, PieceTable.Cells;
      var p := mode.pending.value;
      ghost var addLen := |document.pieces.addBuffer| - 1;
      ghost var before, id, full := timeline[|undoStack|], Add(addLen), p.highNibble * 16 + value;
      assert KnownState(before, |document.file|, addLen);
      assert document.State().cells[p.offset] == id;
      assert Known(id, |document.file|, addLen + 1) && id !in before.tombstones;
      var replaced := document.ReplaceDisplayByte(p.offset, p.highNibble * 16 + value);
      if replaced.Err? {
        return Err(OffsetOutOfRange);
      }
      assert NewestTyped(before, document.State(), p.offset, addLen, document.EntryFor(id, full));
      assert document.ShownByte(document.replacements, id) == full;
      cursor := p.offset + 1;
      var committed := CommitPendingInsert();
      return Ok(());
    }

    /** Type one hex digit in insert mode: the first digit inserts a byte, the second completes it. */
    method InsertNibble(value: Nibble) returns (r: Result<(), Error>)
      requires Valid()
      modifies this, document, document.pieces
      ensures Valid()
      ensures !old(mode).InsertHex? ==>
        && r == Ok(()) && mode == old(mode) && cursor == old(cursor)
        && document.State() == old(document.State()) && undoStack == old(undoStack) && redoStack == old(redoStack)
      ensures old(mode) == InsertHex(None) ==>
        var s := old(document.State());
        && undoStack == old(undoStack) && redoStack == [] && cursor == old(cursor)
        && match InsertFault(s, cursor, document.readonly, document.fixedSize)
           case Some(e) => r == Err(e) && document.State() == s && mode == old(mode)
           case None =>
             && r == Ok(()) && document.State() == InsertCells(s, cursor, [Add(|old(document.pieces.addBuffer)|)])
             && document.pieces.addBuffer == old(document.pieces.addBuffer) + [value * 16]
             && mode == InsertHex(Some(PendingInsert(cursor, value)))
      ensures !old(mode).Settled() ==>
        var p, added := old(mode).pending.value, document.pieces.addBuffer;
        && r == Ok(()) && mode == InsertHex(None) && cursor == p.offset + 1 && redoStack == []
        && added == old(document.pieces.addBuffer) && added != []
        && document.State().cells == old(document.State()).cells
        && document.ShownByte(document.replacements, Add(|added| - 1)) == p.highNibble * 16 + value
        && (forall id :: id != Add(|added| - 1) ==>
              Lookup(document.replacements, id) == Lookup(old(document.replacements), id))
        && undoStack == Committed(old(undoStack), old(mode), cursor, |added|)
        && Display(timeline[|old(undoStack)|]) == Display(old(timeline)[|old(undoStack)|])
    {
      if !mode.InsertHex? {
        return Ok(());
      }
      if mode.pending.None? {
        r := BeginInsert(value);
      } else {
        r := CompleteInsert(value);
      }
    }

    /** Backspace in insert mode: drop the half-typed byte, or really delete the byte before the cursor. */
    method EditBackspace() returns (r: Result<(), Error>)
      requires Valid()
      modifies this, document, document.pieces
      ensures Valid()
      ensures old(mode).InsertHex? && old(mode).pending.Some? ==>
        && r == Ok(()) && mode == InsertHex(None) && cursor == old(mode).pending.value.offset
        && undoStack == old(undoStack) && redoStack == [] && timeline == old(timeline)
        && document.State() == timeline[|undoStack|]
      ensures old(mode) == InsertHex(None) && r.Ok? && old(cursor) > 0 ==>
        var s := old(document.State());
        && old(cursor) <= |s.cells| && cursor == old(cursor) - 1
        && document.State() == RemoveCells(s, cursor, 1) && mode == InsertHex(None)
        && OneStepMore(old(undoStack), undoStack, old(cursor), InsertHex(None), cursor, InsertHex(None))
        && |undoStack[|old(undoStack)|].ops| == 1
        && undoStack[|old(undoStack)|].ops[0] == RealDelete(cursor, [s.cells[cursor]])
        && redoStack == [] && timeline[|old(undoStack)|] == s
      ensures old(mode) == InsertHex(None) && old(cursor) > 0 ==>
        match RemoveFault(old(document.State()), old(cursor) - 1, 1, document.readonly, document.fixedSize)
        case None => r.Ok?
        case Some(e) => r == Err(e)
      ensures !old(mode).InsertHex? || old(mode).pending.Some? || old(cursor) == 0 ==> r == Ok(())
      ensures !old(mode).InsertHex? || (old(mode) == InsertHex(None) && (r.Err? || old(cursor) == 0)) ==>
        && document.State() == old(document.State()) && undoStack == old(undoStack) && redoStack == old(redoStack)
        && mode == old(mode) && cursor == old(cursor)
    {
      hide PieceTable.Valid, PieceTable.Cells;
      if !mode.InsertHex? {
        return Ok(());
      }
      if mode.pending.Some? {
        r := DropHalfTyped();
        return;
      }
      if cursor == 0 {
        return Ok(());
      }
      ghost var s := document.State();
      CurrentStateKnown();
      var deleteOffset := cursor - 1;
      var removed := document.DeleteRangeReal(deleteOffset, 1);
      if removed.Err? {
        return Err(removed.error);
      }
      WithoutKnown(s, deleteOffset, deleteOffset + 1, |document.file|, |document.pieces.addBuffer|);
      PushOne(RealDelete(deleteOffset, removed.value), cursor, InsertHex(None), deleteOffset, InsertHex(None));
      cursor := deleteOffset;
      return Ok(());
    }

    // Really delete the half-typed byte, which was never on the undo stack.
    method DropHalfTyped() returns (r: Result<(), Error>)
      requires Valid() && !mode.Settled()
      modifies this, document, document.pieces
      ensures Valid() && r == Ok(())
      ensures mode == InsertHex(None) && cursor == old(mode).pending.value.offset
      ensures undoStack == old(undoStack) && redoStack == [] && timeline == old(timeline)
      ensures document.State() == timeline[|undoStack|]
    {
      hide PieceTable.Valid, PieceTable.Cells, Reverse, KnownState, Chained, InsertFault;
      var p := mode.pending.value;
      redoStack := [];
      ghost var addLen := |document.pieces.addBuffer| - 1;
      ghost var before := timeline[|undoStack|];
      var removed := document.DeleteRangeReal(p.offset, 1);
      if removed.Err? {
        return Err(OffsetOutOfRange);
      }
      assert document.State().cells == before.cells;
      HistoryGrows(Steps(), timeline, document.fixedSize, |document.file|, addLen, addLen + 1);
      cursor := p.offset;
      mode := InsertHex(None);
      return Ok(());
    }

    /** Take back a half-typed byte without touching the undo stack. */
    method UndoPendingInsert() returns (r: Result<bool, Error>)
      requires Valid()
      modifies this, document, document.pieces
      ensures Valid() && mode.Settled() && r == Ok(!old(mode).Settled())
      ensures mode == (if old(mode).Settled() then old(mode) else InsertHex(None))
      ensures cursor == if old(mode).Settled() then old(cursor) else old(mode).pending.value.offset
      ensures undoStack == old(undoStack) && redoStack == old(redoStack) && timeline == old(timeline)
      ensures document.State() == timeline[|undoStack|]
    {
      if mode.Settled() {
        return Ok(false);
      }
      var dropped := DropHalfTyped();
      return Ok(true);
    }

    /** The undo key: a half-typed byte counts as the first undone action. */
    method HandleUndoAction(steps: nat) returns (r: Result<(), Error>)
      requires Valid()
      modifies this, document, document.pieces
      ensures Valid() && mode.Settled() && r == Ok(())
      ensures timeline == old(timeline) && document.State() == timeline[|undoStack|]
      ensures |undoStack| == SatSub(|old(undoStack)|, if old(mode).Settled() then steps else SatSub(steps, 1))
      ensures |undoStack| == |old(undoStack)| && !old(mode).Settled() ==>
        mode == InsertHex(None) && cursor == old(mode).pending.value.offset
      ensures |undoStack| == |old(undoStack)| && old(mode).Settled() ==> mode == old(mode) && cursor == old(cursor)
      ensures |undoStack| < |old(undoStack)| ==>
        var last := old(undoStack)[|undoStack|];
        mode == last.modeBefore && cursor == ClampCursorForMode(last.cursorBefore, last.modeBefore)
    {
      var pending := UndoPendingInsert();
      if pending.value {
        if steps > 1 {
          r := Undo(steps - 1, true);
        } else {
          r := Ok(());
        }
      } else {
        r := Undo(steps, true);
      }
    }

    /** Moving the cursor first commits a half-typed byte; in replace mode the next digit is a high one again. */
    method MoveCursor(offset: nat)
      requires Valid()
      modifies this, document.pieces`prefixEnds, document.pieces`prefixDirty
      ensures Valid() && document.State() == old(document.State())
      ensures mode == if old(mode).EditHex? then EditHex(High) else if old(mode).InsertHex? then InsertHex(None) else old(mode)
      ensures cursor == ClampCursorForMode(offset, mode)
      ensures !old(mode).Settled() ==> document.pieces.addBuffer != []
      ensures undoStack == Committed(old(undoStack), old(mode), old(cursor), |document.pieces.addBuffer|)
      ensures old(mode).Settled() ==> undoStack == old(undoStack) && redoStack == old(redoStack) && timeline == old(timeline)
    {
      MoveRowEdge(offset);
      if mode.EditHex? {
        mode := EditHex(High);
      }
    }

    /** Jumping to the edge of the row commits a half-typed byte too, but keeps the digit that comes next. */
    method MoveRowEdge(target: nat)
      requires Valid()
      modifies this, document.pieces`prefixEnds, document.pieces`prefixDirty
      ensures Valid() && document.State() == old(document.State())
      ensures mode == if old(mode).InsertHex? then InsertHex(None) else old(mode)
      ensures cursor == ClampCursorForMode(target, mode)
      ensures !old(mode).Settled() ==> document.pieces.addBuffer != []
      ensures undoStack == Committed(old(undoStack), old(mode), old(cursor), |document.pieces.addBuffer|)
      ensures old(mode).Settled() ==> undoStack == old(undoStack) && redoStack == old(redoStack) && timeline == old(timeline)
    {
      HalfTypedCanCommit();
      var committed := CommitPendingInsert();
      cursor := ClampCursorForMode(target, mode);
    }

    // ----- entering and leaving the editing modes

    /** Enter replace or insert mode, where the document and the view allow it. Its keys are read in normal mode. */
    method EnterHexMode(insert: bool, disassembly: bool) returns (r: Result<(), Error>)
      requires Valid() && mode.Settled()
      modifies `mode
      ensures Valid() && mode.Settled()
      ensures
        r == if document.readonly then Err(ReadOnly)
             else if insert && disassembly then Err(DisassemblyUnavailable)
             else if insert && document.fixedSize then Err(FixedSizeViolation)
             else Ok(())
      ensures mode == if r.Err? then old(mode) else if insert then InsertHex(None) else EditHex(High)
    {
      if document.readonly {
        return Err(ReadOnly);
      }
      if insert && disassembly {
        return Err(DisassemblyUnavailable);
      }
      if insert && document.fixedSize {
        return Err(FixedSizeViolation);
      }
      mode := if insert then InsertHex(None) else EditHex(High);
      return Ok(());
    }

    /** Open the command line; a half-typed byte is committed first. */
    method EnterCommandMode()
      requires Valid()
      modifies this, document.pieces`prefixEnds, document.pieces`prefixDirty
      ensures Valid() && mode == Command && document.State() == old(document.State()) && cursor == old(cursor)
      ensures commandReturn == Some(if old(mode).InsertHex? || old(mode).DisasmEdit? then Normal else old(mode))
      ensures !old(mode).Settled() ==> document.pieces.addBuffer != []
      ensures undoStack == Committed(old(undoStack), old(mode), old(cursor), |document.pieces.addBuffer|)
      ensures old(mode).Settled() ==> undoStack == old(undoStack) && redoStack == old(redoStack) && timeline == old(timeline)
    {
      hide PieceTable.Valid, PieceTable.Cells, Document.Valid, App.HalfTyped, History, Reverse, Display, App.CanCommit;
      var returnMode := if mode.InsertHex? || mode.DisasmEdit? then Normal else mode;
      if mode.InsertHex? {
        HalfTypedCanCommit();
        var committed := CommitPendingInsert();
      }
      commandReturn := Some(returnMode);
      mode := Command;
    }

    // A remembered mode whose panel or inline editor is gone falls back to the one below it.
    function NormalizeMode(m: Mode, panelShown: bool, fieldOpen: bool, patchOpen: bool): (r: Mode)
      ensures r.SidePanel? || r.InspectorEdit? ==> panelShown && (m.SidePanel? || m.InspectorEdit?)
      ensures r.InspectorEdit? <==> m.InspectorEdit? && panelShown && fieldOpen
      ensures r.DisasmEdit? <==> m.DisasmEdit? && patchOpen
      ensures r != m ==> r.Normal? || (r.SidePanel? && m.InspectorEdit?)
      ensures (m.SidePanel? && panelShown) || !(m.SidePanel? || m.InspectorEdit? || m.DisasmEdit?) ==> r == m
      ensures m.InspectorEdit? && panelShown && !fieldOpen ==> r.SidePanel?
    {
      if (m.SidePanel? || m.InspectorEdit?) && !panelShown then Normal
      else if m.InspectorEdit? && !fieldOpen then SidePanel
      else if m.DisasmEdit? && !patchOpen then Normal
      else m
    }

    /** Leave the current mode; a half-typed byte is committed, and a remembered mode never brings one back. */
    method LeaveMode(panelShown: bool, fieldOpen: bool, patchOpen: bool)
      requires Valid()
      modifies this, document.pieces`prefixEnds, document.pieces`prefixDirty
      ensures Valid() && mode.Settled() && document.State() == old(document.State()) && cursor == old(cursor)
      ensures
        mode == match old(mode)
                case Command =>
                  if old(commandReturn).None? then Normal
                  else NormalizeMode(old(commandReturn).value, panelShown, fieldOpen, patchOpen)
                case InspectorEdit => SidePanel
                case _ => Normal
      ensures commandReturn == if old(mode).Command? then None else old(commandReturn)
      ensures !old(mode).Settled() ==> document.pieces.addBuffer != []
      ensures undoStack == Committed(old(undoStack), old(mode), old(cursor), |document.pieces.addBuffer|)
      ensures old(mode).Settled() ==> undoStack == old(undoStack) && redoStack == old(redoStack) && timeline == old(timeline)
    {
      hide PieceTable.Valid, PieceTable.Cells, Document.Valid, App.HalfTyped, History, Reverse, Display, App.CanCommit;
      match mode
      case Command =>
        var returnMode := if commandReturn.Some? then commandReturn.value else Normal;
        commandReturn := None;
        mode := NormalizeMode(returnMode, panelShown, fieldOpen, patchOpen);
      case InsertHex(_) =>
        HalfTypedCanCommit();
        var committed := CommitPendingInsert();
        mode := Normal;
      case InspectorEdit => mode := SidePanel;
      case _ => mode := Normal;
    }

    // ----- the mouse

    /**
     * A press of the mouse outside the side panels, `hit` if it lands in the main view and on `offset` if it
     * finds a byte there. Only a press that hits commits a half-typed byte.
     */
    method MousePress(hit: bool, offset: Option<nat>, phase: Option<NibblePhase>, panelShown: bool, fieldOpen: bool,
        patchOpen: bool)
      requires Valid()
      modifies this, document.pieces`prefixEnds, document.pieces`prefixDirty
      ensures Valid() && document.State() == old(document.State())
      ensures !hit ==> mode == old(mode) && cursor == old(cursor) && undoStack == old(undoStack)
      ensures commandReturn == if hit && offset.Some? && old(mode).Command? then None else old(commandReturn)
      ensures hit ==>
        && mode.Settled() && cursor == (if offset.Some? then offset.value else old(cursor))
        && (!old(mode).Settled() ==> document.pieces.addBuffer != [])
        && undoStack == Committed(old(undoStack), old(mode), old(cursor), |document.pieces.addBuffer|)
        && mode == ModePressed(old(mode), offset.Some?, phase, NormalizeMode(
             if old(commandReturn).Some? then old(commandReturn).value else Normal, panelShown, fieldOpen, patchOpen))
      ensures old(mode).Settled() ==> undoStack == old(undoStack) && redoStack == old(redoStack) && timeline == old(timeline)
    {
      hide PieceTable.Valid, PieceTable.Cells, Document.Valid, App.HalfTyped, History, Reverse, Display, App.CanCommit;
      if !hit {
        return;
      }
      SettleForPress(panelShown, fieldOpen, patchOpen);
      if offset.None? {
        return;
      }
      cursor := offset.value;
      match mode
      case EditHex(_) => mode := EditHex(if phase.Some? then phase.value else High);
      case InsertHex(_) => mode := Normal;
      case Command =>
        var returnMode := if commandReturn.Some? then commandReturn.value else Normal;
        commandReturn := None;
        mode := NormalizeMode(returnMode, panelShown, fieldOpen, patchOpen);
      case Visual => mode := Normal;
      case _ =>
    }

    // What a press that hits does first: panels and patches are left, a half-typed byte is committed.
    method SettleForPress(panelShown: bool, fieldOpen: bool, patchOpen: bool)
      requires Valid()
      modifies this, document.pieces`prefixEnds, document.pieces`prefixDirty
      ensures Valid() && document.State() == old(document.State()) && cursor == old(cursor)
      ensures commandReturn == old(commandReturn)
      ensures mode == ModePressed(old(mode), false, None, Normal)
      ensures !old(mode).Settled() ==> document.pieces.addBuffer != []
      ensures undoStack == Committed(old(undoStack), old(mode), old(cursor), |document.pieces.addBuffer|)
      ensures old(mode).Settled() ==> undoStack == old(undoStack) && redoStack == old(redoStack) && timeline == old(timeline)
    {
      hide PieceTable.Valid, PieceTable.Cells, Document.Valid, App.HalfTyped, History, Reverse, Display, App.CanCommit;
      if mode.SidePanel? || mode.InspectorEdit? {
        LeaveMode(panelShown, fieldOpen, patchOpen);
      }
      if mode.DisasmEdit? {
        mode := Normal;
      }
      if mode.InsertHex? {
        HalfTypedCanCommit();
        var committed := CommitPendingInsert();
      }
    }

    /**
     * Dragging over the bytes selects them and commits nothing: a half-typed byte stays in the document, but
     * no undo step and no mode knows of it any more.
     */
    method MouseDrag(offset: nat)
      requires Valid()
      modifies `mode, `cursor
      ensures mode == Visual && cursor == offset && document.State() == old(document.State())
      ensures Valid() <==> old(mode).Settled()
    {
      if !mode.Settled() {
        var p := mode.pending.value;
        assert |document.State().cells| == |timeline[|undoStack|].cells| + 1;
      }
      cursor := offset;
      mode := Visual;
    }

    /**
     * A press beside the bytes and a drag into them loses a half-typed byte: one cell is displayed that is
     * neither in the replay of the undo stack nor pending.
     */
    method DragLosesByte(offset: nat) returns (ghost start: DocState, ghost now: DocState)
      requires Valid() && !mode.Settled()
      modifies this, document.pieces`prefixEnds, document.pieces`prefixDirty
      ensures !Valid() && mode == Visual && undoStack == old(undoStack) && document.State() == old(document.State())
      ensures Display(start) == base && Replay(undoStack, start) == Some(now)
      ensures |document.State().cells| == |now.cells| + 1
    {
      start, now := DocumentIsReplay();
      MousePress(false, None, None, false, false, false);
      MouseDrag(offset);
    }

    lemma {:induction false} HalfTypedCanCommit()
      requires Valid()
      ensures CanCommit()
    {
      if !mode.Settled() {
        var addLen := |document.pieces.addBuffer| - 1;
        var before := timeline[|undoStack|];
        assert KnownState(before, |document.file|, addLen);
        assert Add(addLen) !in before.replacements.Keys;
        var s := InsertCells(before, mode.pending.value.offset, [Add(addLen)]);
        assert WithEntry(s, Add(addLen), None) == s;
        assert NewestTyped(before, document.State(), mode.pending.value.offset, addLen, None);
      }
    }

    /** No cell is displayed twice, half-typed byte included. */
    lemma {:induction false} DisplayedOnce()
      requires Valid()
      ensures NoDup(document.State().cells)
    {
      if !mode.Settled() {
        AppendKnown(timeline[|undoStack|], mode.pending.value.offset, |document.file|, |document.pieces.addBuffer| - 1);
      }
    }

    /**
     * The document is the replay of the undo stack from a state that shows what it showed at the start, and
     * the redo stack can be replayed from it; no replay hits an error or a failed assertion. While a byte is
     * half typed, the document is that replay with the one cell inserted.
     */
    lemma {:induction false} DocumentIsReplay() returns (start: DocState, now: DocState)
      requires Valid()
      ensures Display(start) == base
      ensures Replay(undoStack, start) == Some(now) && Rewind(undoStack, now) == Some(start)
      ensures Replay(Reverse(redoStack), now).Some?
      ensures mode.Settled() ==> document.State() == now
      ensures !mode.Settled() ==>
        var p, added := mode.pending.value, document.pieces.addBuffer;
        && redoStack == [] && p.offset <= |now.cells| && added != []
        && document.State() == InsertCells(now, p.offset, [Add(|added| - 1)])
        && document.ShownByte(document.replacements, Add(|added| - 1)) == p.highNibble * 16
    {
      var k, n := |undoStack|, |Steps()|;
      start, now := timeline[0], timeline[k];
      var fixedSize, fileLen := document.fixedSize, |document.file|;
      var addLen := if mode.Settled() then |document.pieces.addBuffer| else |document.pieces.addBuffer| - 1;
      HistoryReplays(Steps(), timeline, fixedSize, fileLen, addLen, 0, k);
      HistoryRewinds(Steps(), timeline, fixedSize, fileLen, addLen, 0, k);
      HistoryReplays(Steps(), timeline, fixedSize, fileLen, addLen, k, n);
      assert Steps()[0..k] == undoStack && Steps()[k..n] == Reverse(redoStack);
      assert KnownState(now, fileLen, addLen);
    }

    // ----- writing a field

    // What a run of byte writes would do, given the bytes behind each cell.
    ghost function FieldWritten(s: DocState, offset: nat, bytes: seq<Byte>): map<CellId, Byte>
      reads document.pieces
    {
      Written(document.file, document.pieces.addBuffer, s, offset, bytes)
    }

    // A tombstoned cell stops the write, and some earlier byte of it alters its cell.
    ghost predicate TornWrite(s: DocState, offset: nat, bytes: seq<Byte>)
      reads document.pieces
    {
      && !document.readonly
      && exists k, j: nat :: StopsAt(s, offset, bytes, k) && j < k
           && Alters(document.file, document.pieces.addBuffer, s, offset, bytes, j)
    }

    // No byte would land on a deleted cell, nor any byte at all in a read-only document.
    ghost predicate WholeWrite(s: DocState, offset: nat, bytes: seq<Byte>) {
      && (forall i: nat :: i < |bytes| ==> !Blocks(s, offset, i))
      && (document.readonly ==> bytes == [] || offset >= |s.cells|)
    }

    // What a write that fails leaves behind: the bytes before the deleted cell stay written.
    ghost predicate Stopped(s: DocState, t: DocState, offset: nat, bytes: seq<Byte>)
      reads document.pieces
    {
      if document.readonly then t == s
      else exists k: nat :: StopsAt(s, offset, bytes, k) && t == s.(replacements := FieldWritten(s, offset, bytes[..k]))
    }

    // A write that fails changed the document exactly if it is torn.
    lemma {:induction false} TornExactly(s: DocState, t: DocState, offset: nat, bytes: seq<Byte>)
      requires NoDup(s.cells) && Stopped(s, t, offset, bytes)
      ensures t == s <==> !TornWrite(s, offset, bytes)
    {
      hide NoDup, Written, EntryOf;
      if !document.readonly {
        var k: nat :| StopsAt(s, offset, bytes, k) && t == s.(replacements := FieldWritten(s, offset, bytes[..k]));
        var file, added := document.file, document.pieces.addBuffer;
        WriteChanges(file, added, s, offset, bytes[..k]);
        if j: nat :| Alters(file, added, s, offset, bytes[..k], j) {
          assert Alters(file, added, s, offset, bytes, j) && j < k;
        }
        forall k', j: nat | StopsAt(s, offset, bytes, k') && j < k' && Alters(file, added, s, offset, bytes, j)
          ensures Alters(file, added, s, offset, bytes[..k], j) {
          assert k' == k;
        }
      }
    }

    // A write that goes through is not torn, and changes the document exactly if it records something.
    lemma {:induction false} WholeExactly(s: DocState, offset: nat, bytes: seq<Byte>)
      requires NoDup(s.cells) && WholeWrite(s, offset, bytes)
      ensures !TornWrite(s, offset, bytes)
      ensures
        FieldWritten(s, offset, bytes) == s.replacements <==>
        WriteRecord(document.file, document.pieces.addBuffer, s, offset, bytes) == []
    {
      hide NoDup, Written, WriteRecord, EntryOf;
      WriteChanges(document.file, document.pieces.addBuffer, s, offset, bytes);
      RecordedChanges(document.file, document.pieces.addBuffer, s, offset, bytes);
    }

    /** A patch that is first checked for deleted cells, as an assembled instruction is, is never torn. */
    lemma {:induction false} CheckedPatchIsWhole(s: DocState, offset: nat, bytes: seq<Byte>)
      requires bytes != []
      requires forall id :: id in DisplayRange(s.cells, offset, offset + |bytes| - 1) ==> id !in s.tombstones
      ensures !TornWrite(s, offset, bytes)
    {
      forall k: nat | k < |bytes| ensures !Blocks(s, offset, k) {
        if offset + k < |s.cells| {
          assert DisplayRange(s.cells, offset, offset + |bytes| - 1)[k] == s.cells[offset + k];
        }
      }
    }

    // Record what a field write did, if it did anything.
    method RecordField(ghost s: DocState, ghost offset: nat, ghost bytes: seq<Byte>, ops: seq<EditOp>,
        cursorBefore: nat, modeBefore: Mode)
      requires Ledger(|document.pieces.addBuffer|) && s == timeline[|undoStack|]
      requires mode.Settled() && modeBefore.Settled() && (commandReturn.Some? ==> commandReturn.value.Settled())
      requires WholeWrite(s, offset, bytes) && (document.readonly ==> ops == [])
      requires document.State() == s.(replacements := FieldWritten(s, offset, bytes))
      requires
        var changes := WriteRecord(document.file, document.pieces.addBuffer, s, offset, bytes);
        ops == if changes == [] then [] else [ReplaceBytes(changes)]
      modifies `undoStack, `redoStack, `timeline
      ensures Valid()
      ensures
        if document.State() == s then undoStack == old(undoStack) && redoStack == old(redoStack) && timeline == old(timeline)
        else
          && undoStack == old(undoStack) + [UndoStep(cursorBefore, modeBefore, cursor, mode, ops)] && redoStack == []
          && |timeline| == |undoStack| + 1 && timeline[|old(undoStack)|] == s
    {
      hide PieceTable.Valid, PieceTable.Cells, Written, WriteRecord, Links, Reverse, Restore;
      ghost var fileLen, addLen := |document.file|, |document.pieces.addBuffer|;
      assert KnownState(s, fileLen, addLen);
      WholeExactly(s, offset, bytes);
      if ops != [] {
        WriteRecordLinks(document.file, document.pieces.addBuffer, s, offset, bytes);
        WriteRecordTouches(document.file, document.pieces.addBuffer, s, offset, bytes);
        WriteKeepsKnown(document.file, document.pieces.addBuffer, s, offset, bytes);
        PushOne(ops[0], cursorBefore, modeBefore, cursor, mode);
      }
    }

    /**
     * Write a field from the inspector. The stacks stay in step with the document exactly when the write is
     * not torn: a torn write changes bytes that no undo step records. Afterwards the format is detected
     * again, and the mode and the cursor follow what was found.
     */
    method EditField(offset: nat, bytes: seq<Byte>, found: Detection) returns (r: Result<(), Error>)
      requires Valid() && mode.Settled()
      modifies this, document, document.pieces
      ensures Valid() <==> !TornWrite(old(document.State()), offset, bytes)
      ensures document.pieces.addBuffer == old(document.pieces.addBuffer)
      ensures r.Ok? <==> WholeWrite(old(document.State()), offset, bytes)
      ensures r.Err? ==>
        && undoStack == old(undoStack) && redoStack == old(redoStack) && timeline == old(timeline)
        && mode == old(mode) && cursor == old(cursor)
        && Stopped(old(document.State()), document.State(), offset, bytes)
      ensures r.Ok? ==>
        var s := old(document.State());
        && document.State() == s.(replacements := FieldWritten(s, offset, bytes))
        && mode == ModeAfter(found, old(mode)) && cursor == CursorAfter(found, old(cursor))
        && if document.State() == s then undoStack == old(undoStack) && redoStack == old(redoStack)
           else
             && OneStepMore(old(undoStack), undoStack, old(cursor), old(mode), cursor, mode) && redoStack == []
             && |timeline| == |undoStack| + 1 && timeline[|old(undoStack)|] == s
    {
      hide PieceTable.Valid, PieceTable.Cells, Written, WriteRecord, Alters, History, Reverse, App.TornWrite, StopsAt;
      ghost var s := document.State();
      CurrentStateKnown();
      var ops := document.ReplaceBytesAt(offset, bytes);
      if ops.Err? {
        TornExactly(s, document.State(), offset, bytes);
        return Err(ops.error);
      }
      WholeExactly(s, offset, bytes);
      var cursorBefore, modeBefore := cursor, mode;
      mode, cursor := ModeAfter(found, mode), CursorAfter(found, cursor);
      RecordField(s, offset, bytes, ops.value, cursorBefore, modeBefore);
      return Ok(());
    }

    // ----- typing over bytes

    // Record a digit: typed over the byte `id`, or appended as the new cell `id`.
    method RecordDigit(ghost s: DocState, offset: nat, id: CellId, previous: Option<Byte>, after: Option<Byte>,
        isEofAppend: bool, cursorBefore: nat, modeBefore: Mode)
      requires Ledger(|document.pieces.addBuffer|) && s == timeline[|undoStack|] && !document.readonly
      requires mode.Settled() && modeBefore.Settled() && (commandReturn.Some? ==> commandReturn.value.Settled())
      requires Known(id, |document.file|, |document.pieces.addBuffer|)
      requires KnownState(document.State(), |document.file|, |document.pieces.addBuffer|)
      requires isEofAppend ==>
        && !document.fixedSize && previous == after && offset == |s.cells|
        && document.State() == InsertCells(s, offset, [id])
      requires !isEofAppend ==> previous == Lookup(s.replacements, id) && document.State() == WithEntry(s, id, after)
      modifies `undoStack, `redoStack, `timeline
      ensures Valid()
      ensures
        if document.State() == s then undoStack == old(undoStack) && redoStack == old(redoStack) && timeline == old(timeline)
        else
          && OneStepMore(old(undoStack), undoStack, cursorBefore, modeBefore, cursor, mode) && redoStack == []
          && |timeline| == |undoStack| + 1 && timeline[|old(undoStack)|] == s
    {
      hide PieceTable.Valid, PieceTable.Cells, Restore, Reverse, Chained, KnownState;
      if after != previous {
        OneChange(Change(id, previous, after), s, document.State());
        PushOne(ReplaceBytes([Change(id, previous, after)]), cursorBefore, modeBefore, cursor, mode);
      } else if isEofAppend {
        PushOne(Insert(offset, [id]), cursorBefore, modeBefore, cursor, mode);
      } else {
        SameLookups(document.State().replacements, s.replacements);
      }
    }

    /**
     * Type one hex digit in replace mode: the byte under the cursor takes it in its high or low half, and at
     * the end of a resizable document a high digit appends a byte. Each change is one undo step.
     */
    method EditNibble(value: Nibble) returns (r: Result<(), Error>)
      requires Valid()
      modifies this, document, document.pieces
      ensures Valid()
      ensures old(mode).EditHex? ==>
        var s := old(document.State());
        r.Ok? <==>
          && !document.readonly
          && if old(cursor) == |s.cells| then !document.fixedSize && old(mode).phase.High?
             else old(cursor) < |s.cells| && s.cells[old(cursor)] !in s.tombstones
      ensures !old(mode).EditHex? || r.Err? ==>
        && document.State() == old(document.State()) && undoStack == old(undoStack) && redoStack == old(redoStack)
        && mode == old(mode) && cursor == old(cursor)
      ensures old(mode).EditHex? && r.Ok? ==>
        var s := old(document.State());
        && DigitTyped(document.file, old(document.pieces.addBuffer), s, document.pieces.addBuffer, document.State(),
                      old(cursor), old(mode).phase, value)
        && (if document.State() == s then undoStack == old(undoStack) && redoStack == old(redoStack)
            else
              && OneStepMore(old(undoStack), undoStack, old(cursor), old(mode), cursor, mode)
              && redoStack == [] && timeline[|old(undoStack)|] == s)
        && mode == EditHex(if old(mode).phase.High? then Low else High)
        && cursor == if old(mode).phase.High? then old(cursor) else Min(old(cursor) + 1, |document.State().cells|)
    {
      hide PieceTable.Valid, PieceTable.Cells, Restore, Reverse, Chained, App.HalfTyped, EntryOf, Nibbled, DigitTyped, HalfSet, History;
      if !mode.EditHex? {
        return Ok(());
      }
      ghost var s, added := document.State(), document.pieces.addBuffer;
      CurrentStateKnown();
      document.pieces.LenCountsCells();
      var offset, phase := cursor, mode.phase;
      var lenBefore := document.pieces.len;
      var isEofAppend := offset == lenBefore;
      var known := document.ReplacementAt(offset);
      if known.Err? {
        return Err(OffsetOutOfRange);
      }
      var previous := known.value;
      var replaced := document.ReplaceNibble(offset, phase, value);
      if replaced.Err? {
        return Err(replaced.error);
      }
      var id := replaced.value;
      DigitFacts(document.file, added, s, document.pieces.addBuffer, document.State(), offset, phase, value, id);
      HistoryGrows(Steps(), timeline, document.fixedSize, |document.file|, |added|, |document.pieces.addBuffer|);
      var after := document.ReplacementState(id);
      if after.Err? {
        return Err(OffsetOutOfRange);
      }
      var cursorBefore, modeBefore := cursor, mode;
      if phase.High? {
        mode := EditHex(Low);
      } else {
        cursor := Min(offset + 1, document.pieces.len);
        mode := EditHex(High);
      }
      document.pieces.LenCountsCells();
      RecordDigit(s, offset, id, previous, after.value, isEofAppend, cursorBefore, modeBefore);
      return Ok(());
    }

    /** Two digits typed over a byte leave the byte they spell, and move on to the next one. */
    method EditByte(first: Nibble, second: Nibble) returns (r: Result<(), Error>)
      requires Valid() && mode == EditHex(High) && !document.readonly
      requires cursor < |document.State().cells| && document.State().cells[cursor] !in document.tombstones
      modifies this, document, document.pieces
      ensures Valid() && r.Ok? && mode == EditHex(High) && cursor == old(cursor) + 1
      ensures document.State().cells == old(document.State().cells)
      ensures
        var id := old(document.State().cells[cursor]);
        && ShownOf(document.file, document.pieces.addBuffer, document.replacements, id) == Some(16 * first + second)
        && forall other :: other != id ==> Lookup(document.replacements, other) == Lookup(old(document.replacements), other)
    {
      hide App.Valid, Document.Valid, PieceTable.Valid, PieceTable.Cells, ShownOf, HalfSet;
      ghost var s, id := document.State(), document.State().cells[cursor];
      ghost var was := ShownOf(document.file, document.pieces.addBuffer, document.replacements, id);
      r := EditNibble(first);
      ghost var mid := ShownOf(document.file, document.pieces.addBuffer, document.replacements, id);
      assert document.State().cells[cursor] == id && id !in document.State().tombstones;
      r := EditNibble(second);
      ghost var now := ShownOf(document.file, document.pieces.addBuffer, document.replacements, id);
      TwoDigits(was.value, mid.value, now.value, first, second);
    }
  }

  // One step more was recorded, between these cursors and modes.
  ghost predicate OneStepMore(was: seq<UndoStep>, now: seq<UndoStep>, cursorBefore: nat, modeBefore: Mode, cursorAfter: nat,
      modeAfter: Mode)
  {
    && |now| == |was| + 1 && now[..|was|] == was
    && now[|was|].cursorBefore == cursorBefore && now[|was|].modeBefore == modeBefore
    && now[|was|].cursorAfter == cursorAfter && now[|was|].modeAfter == modeAfter
  }

  // The undo stack once a half-typed byte, if there is one, was committed with the cursor where it is.
  ghost function Committed(stack: seq<UndoStep>, m: Mode, cursor: nat, addLen: nat): seq<UndoStep>
    requires !m.Settled() ==> addLen > 0
  {
    if m.Settled() then stack
    else
      var at := m.pending.value.offset;
      stack + [UndoStep(at, InsertHex(None), cursor, InsertHex(None), [Insert(at, [Add(addLen - 1)])])]
  }

  // What the source finds when it detects the file format again after a field was written: the selected
  // row's offset if it has one, no known format, or a format that no longer parses.
  datatype Detection = Detected(selected: Option<nat>) | Undetected | Unparsed

  function ModeAfter(found: Detection, m: Mode): (r: Mode)
    ensures found.Detected? ==> r.SidePanel?
    ensures !found.Detected? && !m.InspectorEdit? && !m.SidePanel? ==> r == m
    ensures found.Undetected? && (m.InspectorEdit? || m.SidePanel?) ==> r.Normal?
    ensures found.Unparsed? && (m.InspectorEdit? || m.SidePanel?) ==> r.SidePanel?
  {
    match found
    case Detected(_) => SidePanel
    case Undetected => if m.InspectorEdit? || m.SidePanel? then Normal else m
    case Unparsed => if m.InspectorEdit? then SidePanel else m
  }

  function CursorAfter(found: Detection, cursor: nat): (r: nat)
    ensures r != cursor ==> found.Detected? && found.selected == Some(r)
    ensures found.Detected? && found.selected.Some? ==> found.selected == Some(r)
  {
    if found.Detected? && found.selected.Some? then found.selected.value else cursor
  }

  // The mode after a press that hit the main view, given the mode that the command line would go back to.
  function ModePressed(m: Mode, onByte: bool, phase: Option<NibblePhase>, returned: Mode): (r: Mode)
    ensures m.InspectorEdit? <==> r.SidePanel? && !(m.Command? && onByte)
    ensures m.Normal? || m.SidePanel? || m.DisasmEdit? || (onByte && (m.InsertHex? || m.Visual?)) ==> r.Normal?
    ensures m.InsertHex? && !onByte ==> r == InsertHex(None)
    ensures !onByte && (m.EditHex? || m.Command? || m.Visual?) ==> r == m
    ensures m.EditHex? && onByte ==> r.EditHex? && (phase.Some? ==> r.phase == phase.value) && (phase.None? ==> r.phase.High?)
    ensures m.Command? && onByte ==> r == returned
  {
    match m
    case InspectorEdit => SidePanel
    case SidePanel => Normal
    case DisasmEdit => Normal
    case Normal => Normal
    case EditHex(_) => if !onByte then m else EditHex(if phase.Some? then phase.value else High)
    case InsertHex(_) => if onByte then Normal else InsertHex(None)
    case Command => if onByte then returned else Command
    case Visual => if onByte then Normal else Visual
  }

  // What one digit makes of the document: it fills one half of the byte it lands on, or appends a byte.
  ghost predicate DigitTyped(file: seq<Byte>, added: seq<Byte>, s: DocState, addedNow: seq<Byte>, t: DocState, at: nat,
      phase: NibblePhase, value: Nibble)
  {
    if at == |s.cells| then
      phase.High? && addedNow == added + [value * 16] && t == InsertCells(s, at, [Add(|added|)])
    else
      && at < |s.cells| && addedNow == added && s.cells[at] !in s.tombstones
      && t == s.(replacements := t.replacements)
      && ShownOf(file, added, s.replacements, s.cells[at]).Some? && ShownOf(file, added, t.replacements, s.cells[at]).Some?
      && HalfSet(ShownOf(file, added, s.replacements, s.cells[at]).value,
                 ShownOf(file, added, t.replacements, s.cells[at]).value, phase, value)
      && (s.cells[at] in t.replacements <==>
            BaseOf(file, added, s.cells[at]) != ShownOf(file, added, t.replacements, s.cells[at]))
      && forall id :: id != s.cells[at] ==> Lookup(t.replacements, id) == Lookup(s.replacements, id)
  }

  lemma {:induction false} DigitFacts(file: seq<Byte>, added: seq<Byte>, s: DocState, addedNow: seq<Byte>, t: DocState,
        at: nat, phase: NibblePhase, value: Nibble, id: CellId)
    requires KnownState(s, |file|, |added|) && at <= |s.cells|
    requires
      if at == |s.cells| then
        phase.High? && id == Add(|added|) && addedNow == added + [value * 16] && t == InsertCells(s, at, [id])
      else
        && id == s.cells[at] && id !in s.tombstones && addedNow == added
        && ShownOf(file, added, s.replacements, id).Some?
        && t == WithEntry(s, id, EntryOf(file, added, id, Nibbled(ShownOf(file, added, s.replacements, id).value, phase, value)))
    ensures DigitTyped(file, added, s, addedNow, t, at, phase, value)
    ensures Known(id, |file|, |addedNow|) && KnownState(t, |file|, |addedNow|)
    ensures at < |s.cells| ==> t == WithEntry(s, id, Lookup(t.replacements, id))
    ensures at == |s.cells| ==> Lookup(t.replacements, id) == None
  {
    hide Nibbled;
    if at == |s.cells| {
      AppendKnown(s, at, |file|, |added|);
    } else {
      var v := Nibbled(ShownOf(file, added, s.replacements, id).value, phase, value);
      EntryStateKnown(s, id, EntryOf(file, added, id, v), |file|, |added|);
      NibbledSets(ShownOf(file, added, s.replacements, id).value, phase, value);
    }
  }

  // Cells picked from a display range of a known state are known.
  lemma {:induction false} RangeKnown(s: DocState, start: nat, end: nat, fileLen: nat, addLen: nat)
    requires KnownState(s, fileLen, addLen)
    ensures KnownSet(ToSet(DisplayRange(s.cells, start, end)), fileLen, addLen)
  {
    var range := DisplayRange(s.cells, start, end);
    forall i | 0 <= i < |range| ensures Known(range[i], fileLen, addLen) {
      assert range[i] == s.cells[start + i];
    }
  }

  // A run of writes keeps to known cells, and so does its record.
  lemma {:induction false} WriteKeepsKnown(file: seq<Byte>, added: seq<Byte>, s: DocState, offset: nat, bytes: seq<Byte>)
    requires KnownState(s, |file|, |added|)
    ensures KnownState(s.(replacements := Written(file, added, s, offset, bytes)), |file|, |added|)
    ensures
      var op := ReplaceBytes(WriteRecord(file, added, s, offset, bytes));
      KnownOp(op, |file|, |added|) && (op.changes != [] ==> HasEffect(op))
  {
    hide Written, EntryOf;
    WriteRecordTouches(file, added, s, offset, bytes);
    ListedKnown(WriteRecord(file, added, s, offset, bytes), s, |file|, |added|);
    var m := Written(file, added, s, offset, bytes);
    forall id | id in m ensures Known(id, |file|, |added|) {
      WrittenCells(file, added, s, offset, bytes, id);
      assert Lookup(m, id).Some?;
      if !exists j: nat :: Lands(s, offset, bytes, j) && s.cells[offset + j] == id {
        assert Lookup(s.replacements, id).Some?;
      }
    }
  }

  lemma {:induction false} ListedKnown(changes: seq<Change>, s: DocState, fileLen: nat, addLen: nat)
    requires KnownState(s, fileLen, addLen)
    requires AllTouch(changes, s)
    ensures KnownOp(ReplaceBytes(changes), fileLen, addLen) && (changes != [] ==> HasEffect(ReplaceBytes(changes)))
  {
    forall i | 0 <= i < |changes| ensures changes[i].before != changes[i].after && Known(changes[i].id, fileLen, addLen) {
      assert changes[i] in changes;
    }
    if changes != [] {
      assert changes[0] in changes;
    }
  }

  // A single recorded change is a linked operation.
  lemma {:induction false} OneChange(c: Change, s: DocState, t: DocState)
    requires c.before == Lookup(s.replacements, c.id)
    requires t == s.(replacements := SetReplacement(s.replacements, c.id, c.after))
    ensures Links(ReplaceBytes([c]), s, t) && HasEffect(ReplaceBytes([c])) == (c.before != c.after)
  {
    assert [c][..0] == [];
    assert Restore([], true, s.replacements) == s.replacements;
    assert [c][0] == c;
  }

  lemma {:induction false} EntryStateKnown(s: DocState, id: CellId, v: Option<Byte>, fileLen: nat, addLen: nat)
    requires KnownState(s, fileLen, addLen) && Known(id, fileLen, addLen)
    ensures KnownState(WithEntry(s, id, v), fileLen, addLen)
  {
  }

  // Inserting the next fresh cell keeps a state known once the add-buffer has grown by that byte.
  lemma {:induction false} AppendKnown(s: DocState, at: nat, fileLen: nat, addLen: nat)
    requires KnownState(s, fileLen, addLen) && at <= |s.cells|
    ensures KnownState(InsertCells(s, at, [Add(addLen)]), fileLen, addLen + 1)
  {
    KnownStateGrows(s, fileLen, addLen, addLen + 1);
    FreshInsertKeepsIds(s.cells, fileLen, addLen, at, 1);
    assert FreshCells(addLen, 1) == [Add(addLen)];
  }

  // With the replacement of its newest cell known to every state, the half-typed state is a plain insertion.
  lemma {:induction false} HalfTypedEntry(before: DocState, now: DocState, at: nat, addLen: nat, fileLen: nat)
    requires KnownState(before, fileLen, addLen) && at <= |before.cells|
    requires Committable(before, now, at, addLen)
    ensures now == InsertCells(WithEntry(before, Add(addLen), Lookup(now.replacements, Add(addLen))), at, [Add(addLen)])
    ensures now == WithEntry(InsertCells(before, at, [Add(addLen)]), Add(addLen), Lookup(now.replacements, Add(addLen)))
  {
    var v :| NewestTyped(before, now, at, addLen, v);
    assert Lookup(now.replacements, Add(addLen)) == v;
  }

  lemma {:induction false} WithoutKnown(s: DocState, lo: nat, hi: nat, fileLen: nat, addLen: nat)
    requires KnownState(s, fileLen, addLen) && lo <= hi <= |s.cells|
    ensures KnownState(s.(cells := Without(s.cells, lo, hi)), fileLen, addLen)
  {
    var rest := Without(s.cells, lo, hi);
    forall i | 0 <= i < |rest| ensures rest[i] == s.cells[if i < lo then i else i + (hi - lo)] {
    }
  }

  // ----- a torn write in the inspector

  // The byte that the format detectors read: a deleted cell reads as zero.
  ghost function LogicalByte(file: seq<Byte>, added: seq<Byte>, s: DocState, i: nat): Option<Byte>
    requires i < |s.cells|
  {
    if s.cells[i] in s.tombstones then Some(0) else ShownOf(file, added, s.replacements, s.cells[i])
  }

  // The gzip detector's test: ten bytes, the magic and the deflate method (RFC 1952, section 2.3.1).
  ghost predicate DetectedAsGzip(file: seq<Byte>, added: seq<Byte>, s: DocState) {
    && |s.cells| >= 10
    && LogicalByte(file, added, s, 0) == Some(0x1f) && LogicalByte(file, added, s, 1) == Some(0x8b)
    && LogicalByte(file, added, s, 2) == Some(8)
  }

  // The four-byte MTIME field starts at offset 4.
  const GZIP_MTIME: nat := 4

  // The state of an unedited file once byte 5 was deleted.
  ghost function ByteDeleted(file: seq<Byte>): DocState {
    DocState(Identity(|file|), {Original(5)}, map[])
  }

  lemma {:induction false} TimeWriteStops(file: seq<Byte>, added: seq<Byte>, time: seq<Byte>, k: nat)
    requires |file| >= 10 && |time| == 4 && time[0] != file[GZIP_MTIME]
    ensures StopsAt(ByteDeleted(file), GZIP_MTIME, time, k) <==> k == 1
    ensures Alters(file, added, ByteDeleted(file), GZIP_MTIME, time, 0)
  {
    var s := ByteDeleted(file);
    assert s.cells[4] == Original(4) && s.cells[5] == Original(5);
    assert Blocks(s, GZIP_MTIME, 1) && !Blocks(s, GZIP_MTIME, 0);
  }

  // The one byte that a failed write of the modification time changes.
  lemma {:induction false} TimeWritten(file: seq<Byte>, added: seq<Byte>, time: seq<Byte>)
    requires |file| >= 10 && |time| == 4 && time[0] != file[GZIP_MTIME]
    ensures Written(file, added, ByteDeleted(file), GZIP_MTIME, time[..1]) == map[Original(GZIP_MTIME) := time[0]]
  {
    var s := ByteDeleted(file);
    assert time[..1] == [time[0]] && [time[0]][..0] == [];
    assert s.cells[4] == Original(4);
    WriteNothing(file, added, s, GZIP_MTIME);
    assert EntryOf(file, added, Original(4), time[0]) == Some(time[0]);
  }

  lemma {:induction false} TimeTorn(app: App, t: DocState, time: seq<Byte>)
    requires !app.document.readonly && |app.document.file| >= 10 && |time| == 4 && time[0] != app.document.file[GZIP_MTIME]
    ensures app.TornWrite(ByteDeleted(app.document.file), GZIP_MTIME, time)
    ensures !app.WholeWrite(ByteDeleted(app.document.file), GZIP_MTIME, time)
    ensures app.Stopped(ByteDeleted(app.document.file), t, GZIP_MTIME, time) ==>
      t == ByteDeleted(app.document.file).(replacements := map[Original(GZIP_MTIME) := time[0]])
  {
    hide Alters, Written, Identity;
    var file, added := app.document.file, app.document.pieces.addBuffer;
    var s := ByteDeleted(file);
    TimeWriteStops(file, added, time, 1);
    assert Blocks(s, GZIP_MTIME, 1);
    TimeWritten(file, added, time);
    forall k: nat | StopsAt(s, GZIP_MTIME, time, k) ensures k == 1 {
      TimeWriteStops(file, added, time, k);
    }
  }

  /**
   * Delete byte 5 of any gzip file that was not edited before, and write its modification time: the file is
   * still taken for gzip and the field still offered, the write changes byte 4 and then fails, and the only
   * undo step is the deletion's.
   */
  method TornGzipTime(app: App, time: seq<Byte>) returns (r: Result<(), Error>)
    requires app.Valid() && app.mode.Settled() && !app.document.readonly && !app.document.fixedSize
    requires app.document.State() == DocState(Identity(|app.document.file|), {}, map[])
    requires DetectedAsGzip(app.document.file, app.document.pieces.addBuffer, app.document.State())
    requires |app.document.file| >= 10 && |time| == 4 && time[0] != app.document.file[GZIP_MTIME]
    modifies app, app.document, app.document.pieces
    ensures r.Err? && !app.Valid() && |app.undoStack| == |old(app.undoStack)| + 1
    ensures
      var file, added, s := app.document.file, app.document.pieces.addBuffer, app.document.State();
      DetectedAsGzip(file, added, s) && LogicalByte(file, added, s, GZIP_MTIME) == Some(time[0])
  {
    hide PieceTable.Valid, PieceTable.Cells, App.Valid, App.Stopped, App.TornWrite, App.WholeWrite, App.FieldWritten, Written;
    app.MoveCursor(GZIP_MTIME + 1);
    app.LenShown();
    var deleted := app.DeleteCurrent();
    assert app.document.State() == ByteDeleted(app.document.file);
    r := app.EditField(GZIP_MTIME, time, Undetected);
    TimeTorn(app, app.document.State(), time);
  }
}
