/** What the undo and redo stacks must satisfy together: one exact timeline of document states. */
module Histories {
  import opened Common
  import opened PieceTables
  import opened Documents

  datatype PendingInsert = PendingInsert(offset: nat, highNibble: Nibble)

  datatype Mode =
    | Normal
    | EditHex(phase: NibblePhase)
    | InsertHex(pending: Option<PendingInsert>)
    | Visual
    | Command
    | SidePanel
    | InspectorEdit
    | DisasmEdit
  {
    predicate Settled() {
      InsertHex? ==> pending.None?
    }
  }

  datatype UndoStep = UndoStep(cursorBefore: nat, modeBefore: Mode, cursorAfter: nat, modeAfter: Mode, ops: seq<EditOp>)

  // ----- ids that a state or an operation mentions

  ghost predicate KnownSet(ids: set<CellId>, fileLen: nat, addLen: nat) {
    forall id :: id in ids ==> Known(id, fileLen, addLen)
  }

  ghost predicate KnownState(s: DocState, fileLen: nat, addLen: nat) {
    && NoDup(s.cells)
    && Backed(s.cells, fileLen, addLen)
    && KnownSet(s.tombstones, fileLen, addLen)
    && KnownSet(s.replacements.Keys, fileLen, addLen)
  }

  ghost predicate KnownOp(op: EditOp, fileLen: nat, addLen: nat) {
    op.ReplaceBytes? ==> forall i :: 0 <= i < |op.changes| ==> Known(op.changes[i].id, fileLen, addLen)
  }

  // An operation the document accepts: fixed-size documents take replacements only.
  ghost predicate Allowed(op: EditOp, fixedSize: bool) {
    fixedSize ==> op.ReplaceBytes?
  }

  ghost predicate GoodOps(ops: seq<EditOp>, fixedSize: bool, fileLen: nat, addLen: nat) {
    forall i :: 0 <= i < |ops| ==> Allowed(ops[i], fixedSize) && KnownOp(ops[i], fileLen, addLen)
  }

  // Steps lead through the timeline, each of them exactly and in both directions.
  ghost predicate History(steps: seq<UndoStep>, timeline: seq<DocState>, fixedSize: bool, fileLen: nat, addLen: nat) {
    && |timeline| == |steps| + 1
    && (forall i :: 0 <= i < |steps| ==> Chained(steps[i].ops, timeline[i], timeline[i + 1]))
    && (forall i :: 0 <= i < |steps| ==> GoodOps(steps[i].ops, fixedSize, fileLen, addLen))
    && (forall i :: 0 <= i < |steps| ==> steps[i].modeBefore.Settled() && steps[i].modeAfter.Settled())
    && (forall i :: 0 <= i < |timeline| ==> KnownState(timeline[i], fileLen, addLen))
  }

  ghost function Reverse<T>(s: seq<T>): (r: seq<T>)
    ensures |r| == |s|
    ensures forall i :: 0 <= i < |s| ==> r[i] == s[|s| - 1 - i]
  {
    seq(|s|, i requires 0 <= i < |s| => s[|s| - 1 - i])
  }

  // ----- replaying operations on values

  // One operation, or `None` where the source would report an error or trip its debug assertion.
  ghost function Redo1(op: EditOp, s: DocState): Option<DocState> {
    if ApplyFault(op, s, false, false).None? && ApplyIntact(op, s) then Some(ApplyOp(op, s)) else None
  }

  ghost function Undo1(op: EditOp, s: DocState): Option<DocState> {
    if UndoFault(op, s, false, false).None? && UndoIntact(op, s) then Some(UndoOp(op, s)) else None
  }

  ghost function RedoOps(ops: seq<EditOp>, s: DocState): Option<DocState> {
    if ops == [] then Some(s)
    else match Redo1(ops[0], s) case None => None case Some(mid) => RedoOps(ops[1..], mid)
  }

  ghost function UndoOps(ops: seq<EditOp>, s: DocState): Option<DocState> {
    if ops == [] then Some(s)
    else match Undo1(ops[|ops| - 1], s) case None => None case Some(mid) => UndoOps(ops[..|ops| - 1], mid)
  }

  // Replay whole steps forwards, oldest first.
  ghost function Replay(steps: seq<UndoStep>, s: DocState): Option<DocState> {
    if steps == [] then Some(s)
    else match RedoOps(steps[0].ops, s) case None => None case Some(mid) => Replay(steps[1..], mid)
  }

  // Undo whole steps, newest first.
  ghost function Rewind(steps: seq<UndoStep>, s: DocState): Option<DocState> {
    if steps == [] then Some(s)
    else match UndoOps(steps[|steps| - 1].ops, s) case None => None case Some(mid) => Rewind(steps[..|steps| - 1], mid)
  }

  // The first link of a chain.
  lemma {:induction false} ChainedFront(ops: seq<EditOp>, s: DocState, t: DocState) returns (mid: DocState)
    requires ops != [] && Chained(ops, s, t)
    ensures Links(ops[0], s, mid) && Chained(ops[1..], mid, t)
    decreases |ops|
  {
    var last :| Chained(ButLast(ops), s, last) && Links(LastOp(ops), last, t);
    if |ops| == 1 {
      mid := t;
    } else {
      mid := ChainedFront(ButLast(ops), s, last);
      assert ButLast(ops[1..]) == ButLast(ops)[1..] && LastOp(ops[1..]) == LastOp(ops);
    }
  }

  lemma {:induction false} ChainedReplays(ops: seq<EditOp>, s: DocState, t: DocState)
    requires Chained(ops, s, t)
    ensures RedoOps(ops, s) == Some(t)
    decreases |ops|
  {
    if ops != [] {
      var mid := ChainedFront(ops, s, t);
      LinksExact(ops[0], s, mid);
      ChainedReplays(ops[1..], mid, t);
    }
  }

  lemma {:induction false} ChainedRewinds(ops: seq<EditOp>, s: DocState, t: DocState)
    requires Chained(ops, s, t)
    ensures UndoOps(ops, t) == Some(s)
    decreases |ops|
  {
    if ops != [] {
      var mid :| Chained(ButLast(ops), s, mid) && Links(LastOp(ops), mid, t);
      LinksExact(LastOp(ops), mid, t);
      ChainedRewinds(ButLast(ops), s, mid);
    }
  }

  /** Replaying any stretch of a history forwards goes exactly from its first to its last state. */
  lemma {:induction false} HistoryReplays(steps: seq<UndoStep>, timeline: seq<DocState>, fixedSize: bool,
        fileLen: nat, addLen: nat, i: nat, j: nat)
    requires History(steps, timeline, fixedSize, fileLen, addLen) && i <= j <= |steps|
    ensures Replay(steps[i..j], timeline[i]) == Some(timeline[j])
    decreases j - i
  {
    hide Chained, KnownState, GoodOps;
    if i < j {
      ChainedReplays(steps[i].ops, timeline[i], timeline[i + 1]);
      HistoryReplays(steps, timeline, fixedSize, fileLen, addLen, i + 1, j);
      assert steps[i..j][1..] == steps[i + 1..j];
    }
  }

  /** Undoing any stretch of a history goes exactly back from its last to its first state. */
  lemma {:induction false} HistoryRewinds(steps: seq<UndoStep>, timeline: seq<DocState>, fixedSize: bool,
        fileLen: nat, addLen: nat, i: nat, j: nat)
    requires History(steps, timeline, fixedSize, fileLen, addLen) && i <= j <= |steps|
    ensures Rewind(steps[i..j], timeline[j]) == Some(timeline[i])
    decreases j - i
  {
    hide Chained, KnownState, GoodOps;
    if i < j {
      ChainedRewinds(steps[j - 1].ops, timeline[j - 1], timeline[j]);
      HistoryRewinds(steps, timeline, fixedSize, fileLen, addLen, i, j - 1);
      assert steps[i..j][..j - i - 1] == steps[i..j - 1];
    }
  }

  // ----- a replacement on a cell the history does not know yet

  ghost function WithEntry(s: DocState, id: CellId, v: Option<Byte>): DocState {
    s.(replacements := SetReplacement(s.replacements, id, v))
  }

  ghost function AllWithEntry(timeline: seq<DocState>, id: CellId, v: Option<Byte>): (r: seq<DocState>)
    ensures |r| == |timeline|
    ensures forall i :: 0 <= i < |timeline| ==> r[i] == WithEntry(timeline[i], id, v)
  {
    seq(|timeline|, i requires 0 <= i < |timeline| => WithEntry(timeline[i], id, v))
  }

  lemma {:induction false} LinksWithEntry(op: EditOp, s: DocState, t: DocState, id: CellId, v: Option<Byte>,
        fileLen: nat, addLen: nat)
    requires Links(op, s, t) && KnownOp(op, fileLen, addLen) && !Known(id, fileLen, addLen)
    ensures Links(op, WithEntry(s, id, v), WithEntry(t, id, v))
  {
    if op.ReplaceBytes? {
      var m := SetReplacement(s.replacements, id, v);
      forall other ensures
        Lookup(Restore(op.changes, true, m), other) == Lookup(SetReplacement(t.replacements, id, v), other)
      {
        RestoreLookup(op.changes, true, m, other);
        RestoreLookup(op.changes, true, s.replacements, other);
        var k := LastIndex(op.changes, other);
        if k >= 0 { assert Known(op.changes[k].id, fileLen, addLen); }
      }
      SameLookups(Restore(op.changes, true, m), SetReplacement(t.replacements, id, v));
      forall i | 0 <= i < |op.changes| ensures op.changes[i].before == Lookup(m, op.changes[i].id) {
        assert Known(op.changes[i].id, fileLen, addLen);
      }
    }
  }

  lemma {:induction false} ChainedWithEntry(ops: seq<EditOp>, s: DocState, t: DocState, id: CellId, v: Option<Byte>,
        fixedSize: bool, fileLen: nat, addLen: nat)
    requires Chained(ops, s, t) && GoodOps(ops, fixedSize, fileLen, addLen) && !Known(id, fileLen, addLen)
    ensures Chained(ops, WithEntry(s, id, v), WithEntry(t, id, v))
    decreases |ops|
  {
    if ops != [] {
      var mid :| Chained(ButLast(ops), s, mid) && Links(LastOp(ops), mid, t);
      ChainedWithEntry(ButLast(ops), s, mid, id, v, fixedSize, fileLen, addLen);
      LinksWithEntry(LastOp(ops), mid, t, id, v, fileLen, addLen);
    }
  }

  lemma {:induction false} KnownStateGrows(s: DocState, fileLen: nat, addLen: nat, more: nat)
    requires KnownState(s, fileLen, addLen) && addLen <= more
    ensures KnownState(s, fileLen, more)
  {
    assert forall c :: Known(c, fileLen, addLen) ==> Known(c, fileLen, more);
  }

  lemma {:induction false} HistoryGrows(steps: seq<UndoStep>, timeline: seq<DocState>, fixedSize: bool, fileLen: nat,
        addLen: nat, more: nat)
    requires History(steps, timeline, fixedSize, fileLen, addLen) && addLen <= more
    ensures History(steps, timeline, fixedSize, fileLen, more)
  {
    assert forall c :: Known(c, fileLen, addLen) ==> Known(c, fileLen, more);
    forall i | 0 <= i < |timeline| ensures KnownState(timeline[i], fileLen, more) {
      KnownStateGrows(timeline[i], fileLen, addLen, more);
    }
    forall i | 0 <= i < |steps| ensures GoodOps(steps[i].ops, fixedSize, fileLen, more) {
      assert GoodOps(steps[i].ops, fixedSize, fileLen, addLen);
    }
  }

  /** Giving a brand-new cell a replacement in every past state keeps the history and what every state shows. */
  lemma {:induction false} HistoryWithEntry(steps: seq<UndoStep>, timeline: seq<DocState>, fixedSize: bool,
        fileLen: nat, addLen: nat, v: Option<Byte>)
    requires History(steps, timeline, fixedSize, fileLen, addLen)
    ensures History(steps, AllWithEntry(timeline, Add(addLen), v), fixedSize, fileLen, addLen + 1)
    ensures forall i :: 0 <= i < |timeline| ==>
              Display(AllWithEntry(timeline, Add(addLen), v)[i]) == Display(timeline[i])
  {
    var id := Add(addLen);
    var later := AllWithEntry(timeline, id, v);
    HistoryGrows(steps, timeline, fixedSize, fileLen, addLen, addLen + 1);
    forall i | 0 <= i < |steps| ensures Chained(steps[i].ops, later[i], later[i + 1]) {
      ChainedWithEntry(steps[i].ops, timeline[i], timeline[i + 1], id, v, fixedSize, fileLen, addLen);
    }
    forall i | 0 <= i < |timeline|
      ensures KnownState(later[i], fileLen, addLen + 1) && Display(later[i]) == Display(timeline[i])
    {
      assert KnownState(timeline[i], fileLen, addLen);
      assert KnownState(timeline[i], fileLen, addLen + 1);
      assert forall k :: 0 <= k < |timeline[i].cells| ==> Known(timeline[i].cells[k], fileLen, addLen);
    }
  }

  lemma {:induction false} HistoryTruncate(steps: seq<UndoStep>, timeline: seq<DocState>, fixedSize: bool,
        fileLen: nat, addLen: nat, k: nat)
    requires History(steps, timeline, fixedSize, fileLen, addLen) && k <= |steps|
    ensures History(steps[..k], timeline[..k + 1], fixedSize, fileLen, addLen)
  {
  }

  lemma {:induction false} HistoryExtend(steps: seq<UndoStep>, timeline: seq<DocState>, fixedSize: bool,
        fileLen: nat, addLen: nat, step: UndoStep, t: DocState)
    requires History(steps, timeline, fixedSize, fileLen, addLen)
    requires Chained(step.ops, timeline[|steps|], t) && GoodOps(step.ops, fixedSize, fileLen, addLen)
    requires step.modeBefore.Settled() && step.modeAfter.Settled() && KnownState(t, fileLen, addLen)
    ensures History(steps + [step], timeline + [t], fixedSize, fileLen, addLen)
  {
    var steps', timeline' := steps + [step], timeline + [t];
    forall i | 0 <= i < |steps'| ensures Chained(steps'[i].ops, timeline'[i], timeline'[i + 1]) {
      if i < |steps| { assert Chained(steps[i].ops, timeline[i], timeline[i + 1]); }
    }
  }
}
