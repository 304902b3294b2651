/**
 * Running a list of commands: grouping of undo steps, stopping or rolling back on an error, and a save
 * that starts the undo history afresh.
 */
module Batches {
  import opened Common
  import opened PieceTables
  import opened Documents
  import opened Histories

  datatype Selection = Selection(start: nat, len: nat, logical: bool)

  datatype ExecState = ExecState(cursor: nat, selection: Option<Selection>)

  datatype CommandKind =
    | Goto | Select | ClearSelection | Read | Hash | Search | Overwrite | InsertAt | Delete | Fill | XorInPlace | Replace
    | ExportBinary | Save

  // What a command asks for is left to the executor.
  datatype Command = Command(kind: CommandKind, arguments: seq<Byte>) {
    // Saving and exporting cannot be rolled back.
    predicate Barred() {
      kind.Save? || kind.ExportBinary?
    }
  }

  datatype Outcome = Outcome(text: string, artifacts: seq<seq<Byte>>, cursor: Option<nat>)

  // One command: done, with what it changed, or failed, with the document as it was.
  datatype Stepped =
    | Done(doc: DocState, state: ExecState, outcome: Outcome, ops: seq<EditOp>, saved: bool)
    | Failed(state: ExecState, error: string)

  type Executor = (DocState, ExecState, Command) -> Stepped

  datatype UndoPolicy = Group | PerStep

  datatype ErrorPolicy = Stop | Rollback

  datatype BatchOptions = BatchOptions(undo: UndoPolicy, onError: ErrorPolicy)

  datatype ExecStep = ExecStep(before: ExecState, after: ExecState, ops: seq<EditOp>)

  datatype Report = Report(outcomes: seq<Outcome>, undoSteps: seq<ExecStep>, stepsCompleted: nat, saved: bool, error: Option<string>)

  const BARRED_MESSAGE := "rollback macros cannot contain save or export-binary steps"

  // ----- what the executor promises

  // The document accepts these operations back.
  ghost predicate Undoable(ops: seq<EditOp>, readonly: bool, fixedSize: bool) {
    forall op :: op in ops ==> !readonly && (fixedSize ==> op.ReplaceBytes?)
  }

  // A command that succeeds records operations that lead from the document before to the one after, and back.
  ghost predicate Lawful(exec: Executor, readonly: bool, fixedSize: bool) {
    forall d, s, c :: LawfulStep(exec, d, s, c, readonly, fixedSize)
  }

  ghost predicate LawfulStep(exec: Executor, d: DocState, s: ExecState, c: Command, readonly: bool, fixedSize: bool) {
    match exec(d, s, c)
    case Failed(_, _) => true
    case Done(after, _, _, ops, saved) =>
      && Undoable(ops, readonly, fixedSize)
      && if saved then c.kind.Save? && ops == [] else Chained(ops, d, after)
  }

  // ----- an executor that edits

  // The first add-buffer index that no cell uses.
  ghost function NextAdd(cells: seq<CellId>): nat {
    if cells == [] then 0
    else
      var n, last := NextAdd(cells[..|cells| - 1]), cells[|cells| - 1];
      if last.Add? then Max(n, last.offset + 1) else n
  }

  ghost function ClampCursor(d: DocState, offset: nat): nat {
    if d.cells == [] then 0 else Min(offset, |d.cells| - 1)
  }

  // The first and last offset of the selection, or the cursor.
  ghost function Scope(s: ExecState): (nat, nat) {
    match s.selection
    case None => (s.cursor, s.cursor)
    case Some(sel) => (sel.start, sel.start + SatSub(sel.len, 1))
  }

  // Insertion of the argument bytes at the cursor, and deletion of the selection or of the byte there.
  ghost function Edit(d: DocState, s: ExecState, c: Command, readonly: bool, fixedSize: bool): Stepped {
    var done := Outcome("done", [], None);
    var at := s.cursor;
    if readonly then Failed(s, "read-only")
    else if c.kind.Save? then Done(d, s, done, [], true)
    else if fixedSize then Failed(s, "fixed size")
    else if c.kind.InsertAt? && at <= |d.cells| then
      var ids := seq(|c.arguments|, i requires 0 <= i < |c.arguments| => Add(NextAdd(d.cells) + i));
      var after := InsertCells(d, at, ids);
      var cursor := if ids == [] then at else ClampCursor(after, at + |ids| - 1);
      Done(after, ExecState(cursor, None), done, [Insert(at, ids)], false)
    else if c.kind.Delete? then
      var (lo, hi) := Scope(s);
      var range := DisplayRange(d.cells, lo, hi);
      var op := TombstoneDelete(Undeleted(range, d.tombstones));
      Done(d.(tombstones := d.tombstones + ToSet(range)), s.(cursor := ClampCursor(d, lo)), done, [op], false)
    else Failed(s, "unsupported")
  }

  ghost function Editing(readonly: bool, fixedSize: bool): Executor {
    (d, s, c) => Edit(d, s, c, readonly, fixedSize)
  }

  /** An executor that inserts, deletes and saves is lawful, and does change documents. */
  lemma {:induction false} EditingIsLawful(readonly: bool, fixedSize: bool)
    ensures Lawful(Editing(readonly, fixedSize), readonly, fixedSize)
    ensures forall d: DocState, s: ExecState, c: Command :: !readonly && !fixedSize && c.kind.InsertAt? && s.cursor <= |d.cells| ==>
      var step := Editing(readonly, fixedSize)(d, s, c);
      step.Done? && |step.doc.cells| == |d.cells| + |c.arguments|
  {
    var exec := Editing(readonly, fixedSize);
    forall d, s, c ensures LawfulStep(exec, d, s, c, readonly, fixedSize) {
      hide Undeleted, Chained, Links, ToSet, NextAdd;
      var step := exec(d, s, c);
      if step.Done? && !step.saved {
        var op := step.ops[0];
        assert step.ops == [op];
        if c.kind.Delete? {
          var (lo, hi) := Scope(s);
          TombstoneRecordLinks(d, DisplayRange(d.cells, lo, hi));
        } else {
          InsertLinks(d, op.at, op.cells);
        }
        ChainedOne(op, d, step.doc);
      }
    }
  }

  lemma {:induction false} NextAddFresh(cells: seq<CellId>)
    ensures forall id :: id in cells && id.Add? ==> id.offset < NextAdd(cells)
  {
    if cells != [] {
      NextAddFresh(cells[..|cells| - 1]);
      assert forall id :: id in cells ==> id in cells[..|cells| - 1] || id == cells[|cells| - 1];
    }
  }

  /** It inserts one new cell for each argument byte and moves the cursor to the last of them. */
  lemma {:induction false} EditingInserts(d: DocState, s: ExecState, c: Command) returns (ids: seq<CellId>)
    requires c.kind.InsertAt? && s.cursor <= |d.cells|
    ensures |ids| == |c.arguments| && NoDup(ids) && forall id :: id in ids ==> id !in d.cells
    ensures
      var step := Editing(false, false)(d, s, c);
      && step.Done? && step.doc == d.(cells := d.cells[..s.cursor] + ids + d.cells[s.cursor..])
      && step.state == ExecState(s.cursor + SatSub(|ids|, 1), None)
  {
    NextAddFresh(d.cells);
    ids := seq(|c.arguments|, i requires 0 <= i < |c.arguments| => Add(NextAdd(d.cells) + i));
    hide NextAdd;
    assert InsertCells(d, s.cursor, ids).cells == d.cells[..s.cursor] + ids + d.cells[s.cursor..];
  }

  /** It deletes the cells of the selection, or the one under the cursor, and moves the cursor to the first. */
  lemma {:induction false} EditingDeletes(d: DocState, s: ExecState, c: Command)
    requires c.kind.Delete?
    ensures
      var step := Editing(false, false)(d, s, c);
      var from, len := if s.selection.Some? then s.selection.value.start else s.cursor,
                       if s.selection.Some? then Max(s.selection.value.len, 1) else 1;
      && step.Done? && step.doc.cells == d.cells && step.doc.replacements == d.replacements
      && (forall id :: id in step.doc.tombstones <==>
            id in d.tombstones || exists i :: from <= i < from + len && i < |d.cells| && d.cells[i] == id)
      && step.state == s.(cursor := if d.cells == [] then 0 else Min(from, |d.cells| - 1))
  {
    var (lo, hi) := Scope(s);
    var range := DisplayRange(d.cells, lo, hi);
    forall id ensures id in ToSet(range) <==> exists i :: lo <= i <= hi && i < |d.cells| && d.cells[i] == id {
      if i :| lo <= i <= hi && i < |d.cells| && d.cells[i] == id {
        assert range[i - lo] == id;
      }
    }
  }

  lemma {:induction false} InsertLinks(d: DocState, at: nat, cells: seq<CellId>)
    requires at <= |d.cells|
    ensures Links(Insert(at, cells), d, InsertCells(d, at, cells))
  {
  }

  // ----- a run, as a fold over the commands

  function Effective(ops: seq<EditOp>): seq<EditOp> {
    if ops == [] then []
    else Effective(ops[..|ops| - 1]) + if HasEffect(ops[|ops| - 1]) then [ops[|ops| - 1]] else []
  }

  // `base` is the document at the last save, or at the start.
  datatype Progress = Progress(
    doc: DocState,
    state: ExecState,
    initial: ExecState,
    base: DocState,
    groupStart: ExecState,
    groupOps: seq<EditOp>,
    appliedOps: seq<EditOp>,
    report: Report)

  function EmptyReport(): Report {
    Report([], [], 0, false, None)
  }

  ghost function Begin(doc: DocState, state: ExecState): Progress {
    Progress(doc, state, state, doc, state, [], [], EmptyReport())
  }

  // A save forgets everything that could have been undone.
  ghost function AfterSave(p: Progress, doc: DocState): Progress {
    p.(base := doc, groupOps := [], appliedOps := [], report := p.report.(undoSteps := [], saved := true))
  }

  ghost function Record(p: Progress, before: ExecState, ops: seq<EditOp>, undo: UndoPolicy): Progress {
    if ops == [] then p
    else
      var q := p.(appliedOps := p.appliedOps + ops);
      match undo
      case Group => q.(groupStart := if p.groupOps == [] then before else p.groupStart, groupOps := p.groupOps + ops)
      case PerStep => q.(report := p.report.(undoSteps := p.report.undoSteps + [ExecStep(before, p.state, ops)]))
  }

  ghost function Succeed(p: Progress, d: Stepped, undo: UndoPolicy): Progress
    requires d.Done?
  {
    var moved := p.(doc := d.doc, state := d.state);
    var kept := if d.saved then AfterSave(moved, d.doc) else moved;
    var recorded := Record(kept, p.state, Effective(d.ops), undo);
    recorded.(report := recorded.report.(
      outcomes := recorded.report.outcomes + [d.outcome], stepsCompleted := recorded.report.stepsCompleted + 1))
  }

  ghost function Fail(p: Progress, error: string, onError: ErrorPolicy): Progress {
    if onError.Rollback? then
      var doc := UndoOps(p.appliedOps, p.doc);
      p.(doc := if doc.Some? then doc.value else p.doc, state := p.initial, groupOps := [], appliedOps := [],
         report := p.report.(outcomes := [], undoSteps := [], error := Some(error)))
    else p.(report := p.report.(error := Some(error)))
  }

  ghost function Advance(exec: Executor, p: Progress, c: Command, options: BatchOptions): Progress {
    if p.report.error.Some? then p
    else
      var d := exec(p.doc, p.state, c);
      if d.Done? then Succeed(p, d, options.undo) else Fail(p.(state := d.state), d.error, options.onError)
  }

  ghost function Fold(exec: Executor, start: Progress, commands: seq<Command>, options: BatchOptions): Progress {
    if commands == [] then start
    else Advance(exec, Fold(exec, start, commands[..|commands| - 1], options), commands[|commands| - 1], options)
  }

  ghost function Finish(p: Progress, undo: UndoPolicy): Report {
    if undo.Group? && p.groupOps != []
    then p.report.(undoSteps := p.report.undoSteps + [ExecStep(p.groupStart, p.state, p.groupOps)])
    else p.report
  }

  lemma {:induction false} FoldSnoc(exec: Executor, start: Progress, commands: seq<Command>, c: Command,
        options: BatchOptions)
    ensures Fold(exec, start, commands + [c], options) == Advance(exec, Fold(exec, start, commands, options), c, options)
  {
    assert (commands + [c])[..|commands|] == commands;
  }

  // After an error nothing more runs.
  lemma {:induction false} FoldStops(exec: Executor, start: Progress, commands: seq<Command>, k: nat,
        options: BatchOptions)
    requires k <= |commands| && Fold(exec, start, commands[..k], options).report.error.Some?
    ensures Fold(exec, start, commands, options) == Fold(exec, start, commands[..k], options)
    decreases |commands|
  {
    if k == |commands| {
      assert commands[..k] == commands;
    } else {
      var front := commands[..|commands| - 1];
      assert front[..k] == commands[..k];
      FoldStops(exec, start, front, k, options);
    }
  }

  // ----- what a run is, command by command

  // The state that command `i` finds: the one its predecessor left.
  ghost function StateBefore(ds: seq<Stepped>, state: ExecState, i: nat): ExecState
    requires i <= |ds|
  {
    if i == 0 then state else ds[i - 1].state
  }

  // The first `n` commands succeeded.
  ghost predicate AllDone(ds: seq<Stepped>, n: nat) {
    n <= |ds| && forall i :: 0 <= i < n ==> ds[i].Done?
  }

  // The document that command `i` finds.
  ghost function DocBefore(ds: seq<Stepped>, doc: DocState, i: nat): DocState
    requires AllDone(ds, i)
  {
    if i == 0 then doc else ds[i - 1].doc
  }

  // Each command ran on the document and in the state that its predecessor left, up to the first failure.
  ghost predicate Ran(exec: Executor, doc: DocState, state: ExecState, commands: seq<Command>, ds: seq<Stepped>) {
    && |ds| <= |commands| && AllDone(ds, SatSub(|ds|, 1))
    && (forall i :: 0 <= i < |ds| ==> ds[i] == exec(DocBefore(ds, doc, i), StateBefore(ds, state, i), commands[i]))
    && (|ds| < |commands| ==> ds != [] && ds[|ds| - 1].Failed?)
  }

  // Of the first `n` commands none after `s` saved, and `s` did if it is not the first.
  ghost predicate LastSave(ds: seq<Stepped>, n: nat, s: nat)
    requires AllDone(ds, n)
  {
    && (s == 0 || (s < n && ds[s].saved))
    && forall i :: s < i < n ==> !ds[i].saved
  }

  ghost predicate Changes(d: Stepped) {
    d.Done? && exists k :: 0 <= k < |d.ops| && HasEffect(d.ops[k])
  }

  // The commands from `s` up to `n` that changed something.
  ghost function ChangingIn(ds: seq<Stepped>, s: nat, n: nat): set<nat>
    requires n <= |ds|
  {
    set i: nat | s <= i < n && Changes(ds[i])
  }

  // `at` lists them in order.
  ghost predicate Changing(ds: seq<Stepped>, s: nat, n: nat, at: seq<nat>)
    requires n <= |ds|
  {
    && (forall a, b :: 0 <= a < b < |at| ==> at[a] < at[b])
    && forall i: nat :: i in at <==> i in ChangingIn(ds, s, n)
  }

  ghost predicate Picks(ds: seq<Stepped>, at: seq<nat>) {
    forall m :: 0 <= m < |at| ==> at[m] < |ds| && ds[at[m]].Done?
  }

  // The operations of these commands that have an effect, one command after the other.
  ghost function JoinedOps(ds: seq<Stepped>, at: seq<nat>): seq<EditOp>
    requires Picks(ds, at)
  {
    if at == [] then [] else JoinedOps(ds, at[..|at| - 1]) + Effective(ds[at[|at| - 1]].ops)
  }

  // One undo step per changing command, between the states before and after it.
  ghost predicate StepByStep(ds: seq<Stepped>, state: ExecState, at: seq<nat>, steps: seq<ExecStep>)
    requires Picks(ds, at)
  {
    && |steps| == |at|
    && forall m :: 0 <= m < |at| ==>
         steps[m] == ExecStep(StateBefore(ds, state, at[m]), ds[at[m]].state, Effective(ds[at[m]].ops))
  }

  // One undo step for all of them, from the state before the first to the one the run ends in.
  ghost predicate AsOne(ds: seq<Stepped>, state: ExecState, at: seq<nat>, end: ExecState, steps: seq<ExecStep>)
    requires Picks(ds, at)
  {
    steps == if at == [] then [] else [ExecStep(StateBefore(ds, state, at[0]), end, JoinedOps(ds, at))]
  }

  // The undo steps of a run: those of the commands since the last save.
  ghost predicate UndoStepsAre(ds: seq<Stepped>, n: nat, state: ExecState, undo: UndoPolicy, end: ExecState, steps: seq<ExecStep>)
    requires AllDone(ds, n)
  {
    exists s: nat, at: seq<nat> ::
      && LastSave(ds, n, s) && Changing(ds, s, n, at) && Picks(ds, at)
      && match undo
         case PerStep => StepByStep(ds, state, at, steps)
         case Group => AsOne(ds, state, at, end, steps)
  }

  // What a run of which `n` commands succeeded leaves and reports. A failing run that must be rolled back
  // leaves nothing; any other leaves the last command's document and state.
  ghost predicate Leaves(ds: seq<Stepped>, n: nat, doc: DocState, state: ExecState, options: BatchOptions,
      error: Option<string>, docNow: DocState, stateNow: ExecState, report: Report)
  {
    && AllDone(ds, n)
    && report.error == error && report.stepsCompleted == n
    && (report.saved <==> exists i :: 0 <= i < n && ds[i].saved)
    && if error.Some? && options.onError.Rollback? then
         docNow == doc && stateNow == state && report.outcomes == [] && report.undoSteps == []
       else
         && docNow == DocBefore(ds, doc, n) && stateNow == StateBefore(ds, state, |ds|)
         && |report.outcomes| == n && (forall i :: 0 <= i < n ==> report.outcomes[i] == ds[i].outcome)
         && UndoStepsAre(ds, n, state, options.undo, stateNow, report.undoSteps)
  }

  // The run ends with the error of its last command, if that failed.
  ghost function ErrorOf(ds: seq<Stepped>): Option<string> {
    if ds != [] && ds[|ds| - 1].Failed? then Some(ds[|ds| - 1].error) else None
  }

  ghost function DoneCount(ds: seq<Stepped>): nat {
    if ds != [] && ds[|ds| - 1].Failed? then |ds| - 1 else |ds|
  }

  /** What a batch leaves, told without the fold: there is a run of its commands that leaves just that. */
  ghost predicate BatchLeaves(exec: Executor, doc: DocState, state: ExecState, commands: seq<Command>,
      options: BatchOptions, docNow: DocState, stateNow: ExecState, report: Report)
  {
    exists ds: seq<Stepped> ::
      Ran(exec, doc, state, commands, ds) && Leaves(ds, DoneCount(ds), doc, state, options, ErrorOf(ds), docNow, stateNow, report)
  }

  // ----- the fold keeps to the run

  // The report so far: how many commands, their outcomes, and whether any of them saved.
  ghost predicate Counted(p: Progress, ds: seq<Stepped>, n: nat, doc: DocState)
    requires AllDone(ds, n)
  {
    && p.report.error.None? && p.report.stepsCompleted == n
    && (p.report.saved <==> exists i :: 0 <= i < n && ds[i].saved) && (!p.report.saved ==> p.base == doc)
    && |p.report.outcomes| == n && (forall i :: 0 <= i < n ==> p.report.outcomes[i] == ds[i].outcome)
  }

  // The undo steps so far, or the operations that will make one.
  ghost predicate Collects(p: Progress, ds: seq<Stepped>, at: seq<nat>, state: ExecState, undo: UndoPolicy) {
    Picks(ds, at) &&
    match undo
    case PerStep => p.groupOps == [] && StepByStep(ds, state, at, p.report.undoSteps)
    case Group =>
      && p.report.undoSteps == [] && p.groupOps == JoinedOps(ds, at)
      && (at != [] ==> p.groupStart == StateBefore(ds, state, at[0]))
  }

  // `p` has come through the first `n` commands of a run without an error.
  ghost predicate Tracks(p: Progress, ds: seq<Stepped>, n: nat, s: nat, at: seq<nat>, doc: DocState, state: ExecState,
      undo: UndoPolicy)
  {
    && AllDone(ds, n)
    && p.doc == DocBefore(ds, doc, n) && p.state == StateBefore(ds, state, n) && p.initial == state
    && Counted(p, ds, n, doc)
    && LastSave(ds, n, s) && Changing(ds, s, n, at) && Collects(p, ds, at, state, undo)
  }

  // `kept` are the operations at these places, in order: exactly those with an effect.
  ghost predicate KeptAt(ops: seq<EditOp>, kept: seq<EditOp>, at: seq<nat>) {
    && |at| == |kept| && (forall a, b :: 0 <= a < b < |at| ==> at[a] < at[b])
    && (forall m :: 0 <= m < |at| ==> at[m] < |ops| && kept[m] == ops[at[m]] && HasEffect(kept[m]))
    && (forall i :: 0 <= i < |ops| && HasEffect(ops[i]) ==> i in at)
  }

  lemma {:induction false} KeptSnoc(ops: seq<EditOp>, kept: seq<EditOp>, at: seq<nat>, op: EditOp)
    requires KeptAt(ops, kept, at)
    ensures
      if HasEffect(op) then KeptAt(ops + [op], kept + [op], at + [|ops|]) else KeptAt(ops + [op], kept, at)
  {
    hide HasEffect;
    if HasEffect(op) {
      var more := at + [|ops|];
      forall i | 0 <= i < |ops + [op]| && HasEffect((ops + [op])[i]) ensures i in more {
        assert i == |ops| ==> more[|at|] == i;
      }
      assert at != [] ==> at[|at| - 1] < |ops|;
    }
  }

  /** What a command is recorded with are exactly its operations with an effect, in their order. */
  lemma {:induction false} EffectiveKeeps(ops: seq<EditOp>) returns (at: seq<nat>)
    ensures KeptAt(ops, Effective(ops), at)
    decreases |ops|
  {
    hide HasEffect, KeptAt;
    if ops == [] {
      at := [];
      assert KeptAt([], [], []) by { KeptNone(); }
    } else {
      var k := |ops| - 1;
      at := EffectiveKeeps(ops[..k]);
      KeptSnoc(ops[..k], Effective(ops[..k]), at, ops[k]);
      assert ops == ops[..k] + [ops[k]];
      if HasEffect(ops[k]) {
        at := at + [k];
      } else {
        assert Effective(ops) == Effective(ops[..k]) + [] == Effective(ops[..k]);
      }
    }
  }

  lemma {:induction false} KeptNone()
    ensures KeptAt([], [], [])
  {
  }

  lemma {:induction false} EffectiveSome(d: Stepped)
    requires d.Done?
    ensures Effective(d.ops) != [] <==> Changes(d)
  {
    hide HasEffect, Effective;
    var at := EffectiveKeeps(d.ops);
    if at != [] {
      assert HasEffect(d.ops[at[0]]);
    }
  }

  lemma {:induction false} JoinedSome(ds: seq<Stepped>, s: nat, n: nat, at: seq<nat>)
    requires n <= |ds| && Changing(ds, s, n, at) && Picks(ds, at) && at != []
    ensures JoinedOps(ds, at) != []
  {
    hide Effective, Changes;
    assert at[|at| - 1] in at;
    EffectiveSome(ds[at[|at| - 1]]);
  }

  // A longer run lists the same.
  lemma {:induction false} JoinedMore(ds: seq<Stepped>, d: Stepped, at: seq<nat>)
    requires Picks(ds, at)
    ensures Picks(ds + [d], at) && JoinedOps(ds + [d], at) == JoinedOps(ds, at)
  {
    hide Effective;
    if at != [] {
      JoinedMore(ds, d, at[..|at| - 1]);
    }
  }

  lemma {:induction false} JoinedSnoc(ds: seq<Stepped>, at: seq<nat>, i: nat)
    requires Picks(ds, at) && i < |ds| && ds[i].Done?
    ensures Picks(ds, at + [i]) && JoinedOps(ds, at + [i]) == JoinedOps(ds, at) + Effective(ds[i].ops)
  {
    hide Effective;
    assert (at + [i])[..|at|] == at;
  }

  lemma {:induction false} TracksMore(p: Progress, ds: seq<Stepped>, d: Stepped, s: nat, at: seq<nat>, doc: DocState,
        state: ExecState, undo: UndoPolicy)
    requires Tracks(p, ds, |ds|, s, at, doc, state, undo)
    ensures Tracks(p, ds + [d], |ds|, s, at, doc, state, undo)
  {
    hide JoinedOps, Changes, Effective;
    assert forall i :: 0 <= i < |ds| ==> (ds + [d])[i] == ds[i];
    JoinedMore(ds, d, at);
  }

  // ----- what a run keeps

  ghost function OpsOf(steps: seq<ExecStep>): seq<EditOp> {
    if steps == [] then [] else OpsOf(steps[..|steps| - 1]) + steps[|steps| - 1].ops
  }

  // The applied operations lead from the last save to the document, and are what the undo steps hold.
  ghost predicate Coherent(p: Progress, undo: UndoPolicy, readonly: bool, fixedSize: bool) {
    && Chained(p.appliedOps, p.base, p.doc)
    && Undoable(p.appliedOps, readonly, fixedSize)
    && match undo
       case Group => p.groupOps == p.appliedOps && p.report.undoSteps == []
       case PerStep => OpsOf(p.report.undoSteps) == p.appliedOps && p.groupOps == []
  }

  lemma {:induction false} ChainedJoin(a: seq<EditOp>, b: seq<EditOp>, s: DocState, mid: DocState, t: DocState)
    requires Chained(a, s, mid) && Chained(b, mid, t)
    ensures Chained(a + b, s, t)
    decreases |b|
  {
    if b == [] {
      assert a + b == a;
    } else {
      var m :| Chained(ButLast(b), mid, m) && Links(LastOp(b), m, t);
      ChainedJoin(a, ButLast(b), s, mid, m);
      assert ButLast(a + b) == a + ButLast(b) && LastOp(a + b) == LastOp(b);
    }
  }

  /** Dropping operations without effect changes neither where a list leads nor what undoing it restores. */
  lemma {:induction false} EffectiveChained(ops: seq<EditOp>, s: DocState, t: DocState)
    requires Chained(ops, s, t)
    ensures Chained(Effective(ops), s, t)
    ensures UndoOps(Effective(ops), t) == UndoOps(ops, t) == Some(s)
    decreases |ops|
  {
    EffectiveLeads(ops, s, t);
    ChainedRewinds(ops, s, t);
    ChainedRewinds(Effective(ops), s, t);
  }

  lemma {:induction false} EffectiveLeads(ops: seq<EditOp>, s: DocState, t: DocState)
    requires Chained(ops, s, t)
    ensures Chained(Effective(ops), s, t)
    decreases |ops|
  {
    if ops != [] {
      var mid :| Chained(ButLast(ops), s, mid) && Links(LastOp(ops), mid, t);
      EffectiveLeads(ButLast(ops), s, mid);
      if HasEffect(LastOp(ops)) {
        ChainedOne(LastOp(ops), mid, t);
        ChainedJoin(Effective(ButLast(ops)), [LastOp(ops)], s, mid, t);
      } else {
        NoEffectStays(LastOp(ops), mid, t);
        assert Effective(ops) == Effective(ButLast(ops)) + [] == Effective(ButLast(ops));
      }
    }
  }

  lemma {:induction false} EffectiveUndoable(ops: seq<EditOp>, readonly: bool, fixedSize: bool)
    requires Undoable(ops, readonly, fixedSize)
    ensures Undoable(Effective(ops), readonly, fixedSize)
    decreases |ops|
  {
    if ops != [] {
      assert forall op :: op in ops[..|ops| - 1] ==> op in ops;
      assert ops[|ops| - 1] in ops;
      EffectiveUndoable(ops[..|ops| - 1], readonly, fixedSize);
    }
  }

  lemma {:induction false} UndoableJoin(a: seq<EditOp>, b: seq<EditOp>, readonly: bool, fixedSize: bool)
    ensures Undoable(a + b, readonly, fixedSize) <==> Undoable(a, readonly, fixedSize) && Undoable(b, readonly, fixedSize)
  {
    assert forall op :: op in a + b <==> op in a || op in b;
  }

  lemma {:induction false} OpsOfSnoc(steps: seq<ExecStep>, step: ExecStep)
    ensures OpsOf(steps + [step]) == OpsOf(steps) + step.ops
  {
    assert (steps + [step])[..|steps|] == steps;
  }

  lemma {:induction false} RecordCoherent(p: Progress, before: ExecState, ops: seq<EditOp>, undo: UndoPolicy,
        doc: DocState, readonly: bool, fixedSize: bool)
    requires Coherent(p.(doc := doc), undo, readonly, fixedSize)
    requires Chained(ops, doc, p.doc) && Undoable(ops, readonly, fixedSize)
    ensures Coherent(Record(p, before, ops, undo), undo, readonly, fixedSize)
  {
    hide Chained, Undoable, OpsOf;
    if ops == [] {
      ChainedOfNone(doc, p.doc);
    } else {
      ChainedJoin(p.appliedOps, ops, p.base, doc, p.doc);
      UndoableJoin(p.appliedOps, ops, readonly, fixedSize);
      OpsOfSnoc(p.report.undoSteps, ExecStep(before, p.state, ops));
    }
  }

  lemma {:induction false} ChainedOfNone(s: DocState, t: DocState)
    ensures Chained([], s, t) <==> s == t
  {
  }

  lemma {:induction false} NothingApplied(readonly: bool, fixedSize: bool)
    ensures Undoable([], readonly, fixedSize) && OpsOf([]) == [] && Effective([]) == []
  {
  }

  lemma {:induction false} LawfulHere(exec: Executor, d: DocState, s: ExecState, c: Command, readonly: bool,
        fixedSize: bool)
    requires Lawful(exec, readonly, fixedSize)
    ensures LawfulStep(exec, d, s, c, readonly, fixedSize)
  {
  }

  lemma {:induction false} FailCoherent(p: Progress, error: string, options: BatchOptions, readonly: bool,
        fixedSize: bool)
    requires Coherent(p, options.undo, readonly, fixedSize)
    ensures Coherent(Fail(p, error, options.onError), options.undo, readonly, fixedSize)
    ensures UndoOps(p.appliedOps, p.doc) == Some(p.base)
  {
    ChainedRewinds(p.appliedOps, p.base, p.doc);
    NothingApplied(readonly, fixedSize);
    ChainedOfNone(p.base, p.base);
    hide Chained, Undoable, OpsOf, UndoOps;
  }

  lemma {:induction false} AdvanceCoherent(exec: Executor, p: Progress, c: Command, options: BatchOptions,
        readonly: bool, fixedSize: bool)
    requires Lawful(exec, readonly, fixedSize) && Coherent(p, options.undo, readonly, fixedSize)
    ensures Coherent(Advance(exec, p, c, options), options.undo, readonly, fixedSize)
  {
    hide Chained, Undoable, OpsOf, Effective, Lawful, UndoOps;
    var d := exec(p.doc, p.state, c);
    LawfulHere(exec, p.doc, p.state, c, readonly, fixedSize);
    if p.report.error.None? && d.Failed? {
      FailCoherent(p.(state := d.state), d.error, options, readonly, fixedSize);
    } else if p.report.error.None? {
      var moved := p.(doc := d.doc, state := d.state);
      NothingApplied(readonly, fixedSize);
      if d.saved {
        var kept := AfterSave(moved, d.doc);
        ChainedOfNone(d.doc, d.doc);
        RecordCoherent(kept, p.state, Effective(d.ops), options.undo, d.doc, readonly, fixedSize);
      } else {
        EffectiveLeads(d.ops, p.doc, d.doc);
        EffectiveUndoable(d.ops, readonly, fixedSize);
        RecordCoherent(moved, p.state, Effective(d.ops), options.undo, p.doc, readonly, fixedSize);
      }
    }
  }

  lemma {:induction false} FoldCoherent(exec: Executor, start: Progress, commands: seq<Command>,
        options: BatchOptions, readonly: bool, fixedSize: bool)
    requires Lawful(exec, readonly, fixedSize) && Coherent(start, options.undo, readonly, fixedSize)
    ensures Coherent(Fold(exec, start, commands, options), options.undo, readonly, fixedSize)
    decreases |commands|
  {
    hide Lawful, Coherent, Advance;
    if commands != [] {
      FoldCoherent(exec, start, commands[..|commands| - 1], options, readonly, fixedSize);
      AdvanceCoherent(exec, Fold(exec, start, commands[..|commands| - 1], options), commands[|commands| - 1],
            options, readonly, fixedSize);
    }
  }

  lemma {:induction false} BeginCoherent(doc: DocState, state: ExecState, undo: UndoPolicy, readonly: bool,
        fixedSize: bool)
    ensures Coherent(Begin(doc, state), undo, readonly, fixedSize)
  {
  }

  // Undo reported steps, the newest first.
  ghost function UndoSteps(steps: seq<ExecStep>, doc: DocState): Option<DocState>
    decreases |steps|
  {
    if steps == [] then Some(doc)
    else
      match UndoOps(steps[|steps| - 1].ops, doc)
      case None => None
      case Some(mid) => UndoSteps(steps[..|steps| - 1], mid)
  }

  lemma {:induction false} UndoOpsJoin(a: seq<EditOp>, b: seq<EditOp>, doc: DocState)
    ensures UndoOps(a + b, doc) == match UndoOps(b, doc) case None => None case Some(mid) => UndoOps(a, mid)
    decreases |b|
  {
    if b == [] {
      assert a + b == a;
    } else {
      var all := a + b;
      assert all[|all| - 1] == b[|b| - 1] && all[..|all| - 1] == a + b[..|b| - 1];
      match Undo1(b[|b| - 1], doc)
      case None =>
      case Some(mid) => UndoOpsJoin(a, b[..|b| - 1], mid);
    }
  }

  lemma {:induction false} UndoStepsIsUndoOps(steps: seq<ExecStep>, doc: DocState)
    ensures UndoSteps(steps, doc) == UndoOps(OpsOf(steps), doc)
    decreases |steps|
  {
    if steps != [] {
      var front, last := steps[..|steps| - 1], steps[|steps| - 1];
      UndoOpsJoin(OpsOf(front), last.ops, doc);
      match UndoOps(last.ops, doc)
      case None =>
      case Some(mid) => UndoStepsIsUndoOps(front, mid);
    }
  }

  lemma {:induction false} FinishOps(p: Progress, undo: UndoPolicy, readonly: bool, fixedSize: bool)
    requires Coherent(p, undo, readonly, fixedSize)
    ensures OpsOf(Finish(p, undo).undoSteps) == p.appliedOps
  {
    hide Chained, Undoable, OpsOf;
    NothingApplied(readonly, fixedSize);
    OpsOfSnoc([], ExecStep(p.groupStart, p.state, p.groupOps));
    var group := ExecStep(p.groupStart, p.state, p.groupOps);
    assert p.report.undoSteps == [] ==> p.report.undoSteps + [group] == [] + [group];
  }

  /** However a batch ends, undoing its reported steps gives the document at the last save, or at the start. */
  lemma {:induction false} UndoingReachesBase(exec: Executor, doc: DocState, state: ExecState,
        commands: seq<Command>, options: BatchOptions, readonly: bool, fixedSize: bool)
    requires Lawful(exec, readonly, fixedSize)
    ensures
      var p := Fold(exec, Begin(doc, state), commands, options);
      UndoSteps(Finish(p, options.undo).undoSteps, p.doc) == Some(p.base)
  {
    hide Lawful, Chained, Fold, UndoOps, OpsOf, Undoable;
    var p := Fold(exec, Begin(doc, state), commands, options);
    BeginCoherent(doc, state, options.undo, readonly, fixedSize);
    FoldCoherent(exec, Begin(doc, state), commands, options, readonly, fixedSize);
    FinishOps(p, options.undo, readonly, fixedSize);
    UndoStepsIsUndoOps(Finish(p, options.undo).undoSteps, p.doc);
    ChainedRewinds(p.appliedOps, p.base, p.doc);
  }

  ghost predicate NoneBarred(commands: seq<Command>) {
    forall c :: c in commands ==> !c.kind.Save? && !c.kind.ExportBinary?
  }

  // Nothing was saved, and a rolled-back run is back where it started.
  ghost predicate RolledBack(p: Progress, doc: DocState, state: ExecState) {
    && p.base == doc && p.initial == state && !p.report.saved
    && (p.report.error.Some? ==>
          p.doc == doc && p.state == state && p.appliedOps == [] && p.groupOps == []
          && p.report.undoSteps == [] && p.report.outcomes == [])
  }

  /** A rollback run that fails leaves the document and the state as they were, and reports nothing done. */
  lemma {:induction false} RollbackRestores(exec: Executor, doc: DocState, state: ExecState, commands: seq<Command>,
        undo: UndoPolicy, readonly: bool, fixedSize: bool)
    requires Lawful(exec, readonly, fixedSize) && NoneBarred(commands)
    ensures
      var p := Fold(exec, Begin(doc, state), commands, BatchOptions(undo, Rollback));
      RolledBack(p, doc, state)
      && (p.report.error.Some? ==> p.doc == doc && p.state == state && Finish(p, undo).undoSteps == [] && Finish(p, undo).outcomes == [])
    decreases |commands|
  {
    if commands != [] {
      hide Lawful, Coherent, Chained, UndoOps, Effective, Undoable, OpsOf;
      var options := BatchOptions(undo, Rollback);
      var front, c := commands[..|commands| - 1], commands[|commands| - 1];
      assert c in commands;
      RollbackRestores(exec, doc, state, front, undo, readonly, fixedSize);
      var p := Fold(exec, Begin(doc, state), front, options);
      BeginCoherent(doc, state, undo, readonly, fixedSize);
      FoldCoherent(exec, Begin(doc, state), front, options, readonly, fixedSize);
      var d := exec(p.doc, p.state, c);
      LawfulHere(exec, p.doc, p.state, c, readonly, fixedSize);
      if p.report.error.None? && d.Failed? {
        FailRestores(p.(state := d.state), d.error, undo, readonly, fixedSize);
      }
    }
  }

  lemma {:induction false} FailRestores(p: Progress, error: string, undo: UndoPolicy, readonly: bool, fixedSize: bool)
    requires Coherent(p.(state := p.initial), undo, readonly, fixedSize)
    ensures
      var q := Fail(p, error, Rollback);
      q.doc == p.base && q.state == p.initial && q.appliedOps == [] && q.groupOps == []
      && q.report.undoSteps == [] && q.report.outcomes == [] && q.report.error.Some?
  {
    ChainedRewinds(p.appliedOps, p.base, p.doc);
  }

  lemma {:induction false} BeginTracks(doc: DocState, state: ExecState, undo: UndoPolicy)
    ensures Tracks(Begin(doc, state), [], 0, 0, [], doc, state, undo)
  {
  }

  // The last save once one more command succeeded.
  lemma {:induction false} LastSaveMore(ds: seq<Stepped>, s: nat)
    requires ds != [] && AllDone(ds, |ds|) && LastSave(ds, |ds| - 1, s)
    ensures LastSave(ds, |ds|, if ds[|ds| - 1].saved then |ds| - 1 else s)
  {
  }

  // And the changing commands: a save forgets the ones before it.
  lemma {:induction false} ChangingMore(ds: seq<Stepped>, s: nat, at: seq<nat>)
    requires ds != [] && s < |ds| && Changing(ds, s, |ds| - 1, at)
    ensures Changing(ds, s, |ds|, if Changes(ds[|ds| - 1]) then at + [|ds| - 1] else at)
  {
    hide Changes;
    var n := |ds| - 1;
    var before, after := ChangingIn(ds, s, n), ChangingIn(ds, s, |ds|);
    assert after == before + if Changes(ds[n]) then {n} else {};
    assert forall a :: 0 <= a < |at| ==> at[a] in at && at[a] in before;
    assert forall i: nat :: i in at + [n] <==> i in at || i == n;
  }

  lemma {:induction false} ChangingNone(ds: seq<Stepped>, n: nat)
    requires n <= |ds|
    ensures Changing(ds, n, n, [])
  {
  }

  // The undo steps and pending operations once the changing command `n` was recorded.
  lemma {:induction false} RecordTracks(p: Progress, ds: seq<Stepped>, n: nat, at: seq<nat>, state: ExecState, undo: UndoPolicy)
    requires n < |ds| && AllDone(ds, n + 1) && p.state == ds[n].state
    requires Collects(p, ds, at, state, undo) && (at != [] ==> JoinedOps(ds, at) != [])
    ensures
      var q := Record(p, StateBefore(ds, state, n), Effective(ds[n].ops), undo);
      && q == p.(groupStart := q.groupStart, groupOps := q.groupOps, appliedOps := q.appliedOps,
                 report := p.report.(undoSteps := q.report.undoSteps))
      && Collects(q, ds, if Changes(ds[n]) then at + [n] else at, state, undo)
  {
    hide Effective, Changes, JoinedOps;
    EffectiveSome(ds[n]);
    JoinedSnoc(ds, at, n);
    JoinedNone(ds);
  }

  lemma {:induction false} JoinedNone(ds: seq<Stepped>)
    ensures JoinedOps(ds, []) == []
  {
  }

  // One more command succeeds.
  lemma {:induction false} SucceedTracks(p: Progress, ds: seq<Stepped>, d: Stepped, s: nat, at: seq<nat>, doc: DocState,
        state: ExecState, undo: UndoPolicy) returns (s': nat, at': seq<nat>)
    requires Tracks(p, ds, |ds|, s, at, doc, state, undo) && d.Done?
    ensures Tracks(Succeed(p, d, undo), ds + [d], |ds| + 1, s', at', doc, state, undo)
  {
    hide JoinedOps, Changes, Effective, Record, LastSave, Changing, Counted, Collects;
    var all, n := ds + [d], |ds|;
    TracksMore(p, ds, d, s, at, doc, state, undo);
    var kept, from := if d.saved then [] else at, if d.saved then n else s;
    s' := from;
    at' := if Changes(d) then kept + [n] else kept;
    var moved := p.(doc := d.doc, state := d.state);
    var base := if d.saved then AfterSave(moved, d.doc) else moved;
    LastSaveMore(all, s);
    ChangingNone(all, n);
    LastSaveInside(all, n, s);
    ChangingMore(all, from, kept);
    CollectsSave(p, all, n, s, at, state, undo, base, d.saved, doc);
    RecordTracks(base, all, n, kept, state, undo);
    CountedMore(p, all, n, doc, Succeed(p, d, undo));
    CollectsSame(Record(base, p.state, Effective(d.ops), undo), Succeed(p, d, undo), all, at', state, undo);
  }

  lemma {:induction false} CollectsSame(p: Progress, q: Progress, ds: seq<Stepped>, at: seq<nat>, state: ExecState, undo: UndoPolicy)
    requires Collects(p, ds, at, state, undo)
    requires q.groupOps == p.groupOps && q.groupStart == p.groupStart && q.report.undoSteps == p.report.undoSteps
    ensures Collects(q, ds, at, state, undo)
  {
    hide JoinedOps;
  }

  lemma {:induction false} LastSaveInside(ds: seq<Stepped>, n: nat, s: nat)
    requires AllDone(ds, n) && LastSave(ds, n, s)
    ensures s <= n
  {
  }

  lemma {:induction false} CollectsSave(p: Progress, ds: seq<Stepped>, n: nat, s: nat, at: seq<nat>, state: ExecState,
        undo: UndoPolicy, base: Progress, saved: bool, doc: DocState)
    requires AllDone(ds, n) && Changing(ds, s, n, at) && Collects(p, ds, at, state, undo)
    requires base.groupOps == (if saved then [] else p.groupOps) && base.groupStart == p.groupStart
    requires base.report.undoSteps == if saved then [] else p.report.undoSteps
    ensures
      var kept := if saved then [] else at;
      Collects(base, ds, kept, state, undo) && (kept != [] ==> JoinedOps(ds, kept) != [])
  {
    hide JoinedOps, Changes;
    JoinedNone(ds);
    if at != [] {
      JoinedSome(ds, s, n, at);
    }
  }

  lemma {:induction false} CountedMore(p: Progress, ds: seq<Stepped>, n: nat, doc: DocState, q: Progress)
    requires n < |ds| && AllDone(ds, n + 1) && Counted(p, ds, n, doc)
    requires q.report.outcomes == p.report.outcomes + [ds[n].outcome] && q.report.stepsCompleted == p.report.stepsCompleted + 1
    requires q.report.saved == (p.report.saved || ds[n].saved) && (!ds[n].saved ==> q.base == p.base) && q.report.error == p.report.error
    ensures Counted(q, ds, n + 1, doc)
  {
  }

  // ----- and so does what it reports

  lemma {:induction false} TracksLeaves(p: Progress, ds: seq<Stepped>, s: nat, at: seq<nat>, doc: DocState,
        state: ExecState, options: BatchOptions)
    requires Tracks(p, ds, |ds|, s, at, doc, state, options.undo)
    ensures Leaves(ds, |ds|, doc, state, options, None, p.doc, p.state, Finish(p, options.undo))
  {
    hide Effective, Changes, JoinedOps;
    JoinedNone(ds);
    if at != [] {
      JoinedSome(ds, s, |ds|, at);
    }
    assert UndoStepsAre(ds, |ds|, state, options.undo, p.state, Finish(p, options.undo).undoSteps);
  }

  // A run that fails after `n` commands, in the state `x`.
  lemma {:induction false} FailLeaves(p: Progress, ds: seq<Stepped>, n: nat, s: nat, at: seq<nat>, doc: DocState,
        state: ExecState, error: string, options: BatchOptions, readonly: bool, fixedSize: bool)
    requires Tracks(p, ds, n, s, at, doc, state, options.undo) && Coherent(p, options.undo, readonly, fixedSize)
    requires options.onError.Rollback? ==> !p.report.saved
    ensures
      var q := Fail(p.(state := StateBefore(ds, state, |ds|)), error, options.onError);
      Leaves(ds, n, doc, state, options, Some(error), q.doc, q.state, Finish(q, options.undo))
  {
    hide Effective, Changes, JoinedOps, Coherent, UndoOps, Chained;
    JoinedNone(ds);
    if at != [] {
      JoinedSome(ds, s, n, at);
    }
    var moved := p.(state := StateBefore(ds, state, |ds|));
    var q := Fail(moved, error, options.onError);
    if options.onError.Rollback? {
      CoherentMoved(p, p.initial, options.undo, readonly, fixedSize);
      assert moved.(state := p.initial) == p.(state := p.initial);
      FailRestores(moved, error, options.undo, readonly, fixedSize);
    } else {
      assert UndoStepsAre(ds, n, state, options.undo, q.state, Finish(q, options.undo).undoSteps);
    }
  }

  lemma {:induction false} CoherentMoved(p: Progress, state: ExecState, undo: UndoPolicy, readonly: bool, fixedSize: bool)
    requires Coherent(p, undo, readonly, fixedSize)
    ensures Coherent(p.(state := state), undo, readonly, fixedSize)
  {
    hide Chained, Undoable, OpsOf;
  }

  // A run of lawful commands, none of them barred, saves nothing.
  lemma {:induction false} NothingSaved(exec: Executor, doc: DocState, state: ExecState, commands: seq<Command>,
        ds: seq<Stepped>, readonly: bool, fixedSize: bool)
    requires Lawful(exec, readonly, fixedSize) && NoneBarred(commands) && Ran(exec, doc, state, commands, ds)
    ensures forall i :: 0 <= i < |ds| && ds[i].Done? ==> !ds[i].saved
  {
    hide Lawful, Chained, Undoable;
    forall i | 0 <= i < |ds| && ds[i].Done? ensures !ds[i].saved {
      LawfulHere(exec, DocBefore(ds, doc, i), StateBefore(ds, state, i), commands[i], readonly, fixedSize);
      assert commands[i] in commands;
    }
  }

  // A run goes on with one more command.
  lemma {:induction false} RanMore(exec: Executor, doc: DocState, state: ExecState, commands: seq<Command>, ds: seq<Stepped>,
        c: Command)
    requires Ran(exec, doc, state, commands, ds) && |ds| == |commands| && AllDone(ds, |ds|)
    ensures Ran(exec, doc, state, commands + [c], ds + [exec(DocBefore(ds, doc, |ds|), StateBefore(ds, state, |ds|), c)])
  {
    var d := exec(DocBefore(ds, doc, |ds|), StateBefore(ds, state, |ds|), c);
    var all, more := ds + [d], commands + [c];
    forall i | 0 <= i < |all| ensures all[i] == exec(DocBefore(all, doc, i), StateBefore(all, state, i), more[i]) {
      assert i < |ds| ==> all[i] == ds[i] && more[i] == commands[i];
    }
  }

  // One that has failed does not.
  lemma {:induction false} RanNoMore(exec: Executor, doc: DocState, state: ExecState, commands: seq<Command>,
        ds: seq<Stepped>, c: Command)
    requires Ran(exec, doc, state, commands, ds) && ErrorOf(ds).Some?
    ensures Ran(exec, doc, state, commands + [c], ds)
  {
    assert forall i :: 0 <= i < |ds| ==> (commands + [c])[i] == commands[i];
  }

  // The fold has come through the run, or failed with its last command.
  ghost predicate Folded(p: Progress, ds: seq<Stepped>, q: Progress, s: nat, at: seq<nat>, doc: DocState, state: ExecState,
      options: BatchOptions)
  {
    && Tracks(q, ds, DoneCount(ds), s, at, doc, state, options.undo)
    && p == match ErrorOf(ds)
            case None => q
            case Some(e) => Fail(q.(state := StateBefore(ds, state, |ds|)), e, options.onError)
  }

  lemma {:induction false} FoldRuns(exec: Executor, doc: DocState, state: ExecState, commands: seq<Command>,
        options: BatchOptions, readonly: bool, fixedSize: bool)
      returns (ds: seq<Stepped>, q: Progress, s: nat, at: seq<nat>)
    requires Lawful(exec, readonly, fixedSize)
    ensures Ran(exec, doc, state, commands, ds) && Coherent(q, options.undo, readonly, fixedSize)
    ensures Folded(Fold(exec, Begin(doc, state), commands, options), ds, q, s, at, doc, state, options)
    decreases |commands|
  {
    hide Lawful, Tracks, Coherent, Succeed, Fail, Ran;
    if commands == [] {
      ds, q, s, at := [], Begin(doc, state), 0, [];
      RanNone(exec, doc, state);
      BeginTracks(doc, state, options.undo);
      BeginCoherent(doc, state, options.undo, readonly, fixedSize);
    } else {
      var front, c := commands[..|commands| - 1], commands[|commands| - 1];
      assert commands == front + [c];
      ds, q, s, at := FoldRuns(exec, doc, state, front, options, readonly, fixedSize);
      RanFacts(exec, doc, state, front, ds);
      var p := Fold(exec, Begin(doc, state), front, options);
      FailFails(q.(state := StateBefore(ds, state, |ds|)), if ErrorOf(ds).Some? then ErrorOf(ds).value else "", options.onError);
      if ErrorOf(ds).Some? {
        RanNoMore(exec, doc, state, front, ds, c);
      } else {
        TracksFacts(q, ds, s, at, doc, state, options.undo);
        var d := exec(p.doc, p.state, c);
        RanMore(exec, doc, state, front, ds, c);
        if d.Done? {
          AdvanceCoherent(exec, p, c, options, readonly, fixedSize);
          s, at := SucceedTracks(p, ds, d, s, at, doc, state, options.undo);
          q := Succeed(p, d, options.undo);
        } else {
          TracksMore(p, ds, d, s, at, doc, state, options.undo);
        }
        ds := ds + [d];
      }
    }
  }

  lemma {:induction false} RanNone(exec: Executor, doc: DocState, state: ExecState)
    ensures Ran(exec, doc, state, [], [])
  {
  }

  lemma {:induction false} RanFacts(exec: Executor, doc: DocState, state: ExecState, commands: seq<Command>, ds: seq<Stepped>)
    requires Ran(exec, doc, state, commands, ds)
    ensures AllDone(ds, DoneCount(ds)) && (ErrorOf(ds).None? ==> |ds| == |commands| && DoneCount(ds) == |ds|)
  {
  }

  lemma {:induction false} TracksFacts(p: Progress, ds: seq<Stepped>, s: nat, at: seq<nat>, doc: DocState,
        state: ExecState, undo: UndoPolicy)
    requires Tracks(p, ds, |ds|, s, at, doc, state, undo)
    ensures AllDone(ds, |ds|) && p.doc == DocBefore(ds, doc, |ds|) && p.state == StateBefore(ds, state, |ds|)
    ensures p.report.error.None?
  {
    hide JoinedOps, Changes;
  }

  lemma {:induction false} FailFails(p: Progress, error: string, onError: ErrorPolicy)
    ensures Fail(p, error, onError).report.error == Some(error)
  {
    hide UndoOps;
  }

  /** A batch leaves what the run of its commands leaves, each in the state its predecessor left. */
  lemma {:induction false} BatchIsRun(exec: Executor, doc: DocState, state: ExecState, commands: seq<Command>,
        options: BatchOptions, readonly: bool, fixedSize: bool)
    requires Lawful(exec, readonly, fixedSize) && (options.onError.Rollback? ==> NoneBarred(commands))
    ensures
      var p := Fold(exec, Begin(doc, state), commands, options);
      BatchLeaves(exec, doc, state, commands, options, p.doc, p.state, Finish(p, options.undo))
  {
    hide Lawful, Tracks, Coherent, Succeed, Fail, Ran, Leaves, Fold, Finish, NoneBarred;
    var ds, q, s, at := FoldRuns(exec, doc, state, commands, options, readonly, fixedSize);
    RanFacts(exec, doc, state, commands, ds);
    match ErrorOf(ds)
    case None => TracksLeaves(q, ds, s, at, doc, state, options);
    case Some(e) =>
      if options.onError.Rollback? {
        NothingSaved(exec, doc, state, commands, ds, readonly, fixedSize);
        TracksSaved(q, ds, DoneCount(ds), s, at, doc, state, options.undo);
      }
      FailLeaves(q, ds, DoneCount(ds), s, at, doc, state, e, options, readonly, fixedSize);
  }

  lemma {:induction false} TracksSaved(p: Progress, ds: seq<Stepped>, n: nat, s: nat, at: seq<nat>, doc: DocState,
        state: ExecState, undo: UndoPolicy)
    requires Tracks(p, ds, n, s, at, doc, state, undo)
    ensures p.report.saved ==> exists i :: 0 <= i < |ds| && ds[i].Done? && ds[i].saved
  {
    hide JoinedOps, Changes;
  }

  // Two runs that differ only in how undo steps are grouped.
  ghost predicate SameBut(p: Progress, q: Progress) {
    && p.doc == q.doc && p.state == q.state && p.initial == q.initial && p.base == q.base && p.appliedOps == q.appliedOps
    && p.report.outcomes == q.report.outcomes && p.report.stepsCompleted == q.report.stepsCompleted
    && p.report.saved == q.report.saved && p.report.error == q.report.error
  }

  lemma {:induction false} AdvanceNeutral(exec: Executor, p: Progress, q: Progress, c: Command, onError: ErrorPolicy)
    requires SameBut(p, q)
    ensures SameBut(Advance(exec, p, c, BatchOptions(Group, onError)), Advance(exec, q, c, BatchOptions(PerStep, onError)))
  {
    hide UndoOps, Effective;
  }

  lemma {:induction false} GroupingIsNeutral(exec: Executor, doc: DocState, state: ExecState, commands: seq<Command>,
        onError: ErrorPolicy)
    ensures SameBut(
              Fold(exec, Begin(doc, state), commands, BatchOptions(Group, onError)),
              Fold(exec, Begin(doc, state), commands, BatchOptions(PerStep, onError)))
    decreases |commands|
  {
    hide Advance;
    if commands != [] {
      var front, c := commands[..|commands| - 1], commands[|commands| - 1];
      GroupingIsNeutral(exec, doc, state, front, onError);
      AdvanceNeutral(exec, Fold(exec, Begin(doc, state), front, BatchOptions(Group, onError)),
                     Fold(exec, Begin(doc, state), front, BatchOptions(PerStep, onError)), c, onError);
    }
  }

  /** Grouped or step by step, a batch does the same and reports the same operations in the same order. */
  lemma {:induction false} GroupAndPerStepAgree(exec: Executor, doc: DocState, state: ExecState,
        commands: seq<Command>, onError: ErrorPolicy, readonly: bool, fixedSize: bool)
    requires Lawful(exec, readonly, fixedSize)
    ensures
      var p := Fold(exec, Begin(doc, state), commands, BatchOptions(Group, onError));
      var q := Fold(exec, Begin(doc, state), commands, BatchOptions(PerStep, onError));
      && SameBut(p, q)
      && OpsOf(Finish(p, Group).undoSteps) == OpsOf(Finish(q, PerStep).undoSteps)
      && |Finish(p, Group).undoSteps| <= 1
  {
    hide Lawful, Fold, Chained, OpsOf, Undoable;
    GroupingIsNeutral(exec, doc, state, commands, onError);
    forall undo: UndoPolicy
      ensures Coherent(Fold(exec, Begin(doc, state), commands, BatchOptions(undo, onError)), undo, readonly, fixedSize)
    {
      BeginCoherent(doc, state, undo, readonly, fixedSize);
      FoldCoherent(exec, Begin(doc, state), commands, BatchOptions(undo, onError), readonly, fixedSize);
    }
    FinishOps(Fold(exec, Begin(doc, state), commands, BatchOptions(Group, onError)), Group, readonly, fixedSize);
    FinishOps(Fold(exec, Begin(doc, state), commands, BatchOptions(PerStep, onError)), PerStep, readonly, fixedSize);
  }

  // A step moves the base only when it saves, and then to the document the save left.
  lemma {:induction false} AdvanceBase(exec: Executor, p: Progress, c: Command, options: BatchOptions)
    ensures
      var q, d := Advance(exec, p, c, options), exec(p.doc, p.state, c);
      if p.report.error.None? && d.Done? && d.saved then q.base == q.doc && q.report.saved
      else q.base == p.base && q.report.saved == p.report.saved
  {
    hide UndoOps, Effective;
  }

  /** The document that undoing leads back to: the one the last completed save left, or the first when nothing was saved. */
  lemma {:induction false} BaseIsLastSave(exec: Executor, doc: DocState, state: ExecState, commands: seq<Command>,
        options: BatchOptions)
    returns (k: nat)
    ensures k <= |commands|
    ensures Fold(exec, Begin(doc, state), commands, options).base == Fold(exec, Begin(doc, state), commands[..k], options).doc
    ensures k == 0 <==> !Fold(exec, Begin(doc, state), commands, options).report.saved
    ensures k > 0 ==>
      var p := Fold(exec, Begin(doc, state), commands[..k - 1], options);
      var d := exec(p.doc, p.state, commands[k - 1]);
      p.report.error.None? && d.Done? && d.saved
    decreases |commands|
  {
    hide Advance;
    if commands == [] {
      return 0;
    }
    var front, c := commands[..|commands| - 1], commands[|commands| - 1];
    k := BaseIsLastSave(exec, doc, state, front, options);
    assert front[..k] == commands[..k] && (k > 0 ==> front[..k - 1] == commands[..k - 1]);
    var p := Fold(exec, Begin(doc, state), front, options);
    var d := exec(p.doc, p.state, c);
    AdvanceBase(exec, p, c, options);
    if p.report.error.None? && d.Done? && d.saved {
      k := |commands|;
      assert commands[..k] == commands;
    }
  }

  // ----- the batch itself

  /** A document being edited by commands. */
  class Session {
    var doc: DocState
    var state: ExecState
    const exec: Executor
    const readonly: bool
    const fixedSize: bool

    constructor (doc: DocState, state: ExecState, exec: Executor, readonly: bool, fixedSize: bool)
      ensures this.doc == doc && this.state == state && this.exec == exec && this.readonly == readonly && this.fixedSize == fixedSize
    {
      this.doc, this.state, this.exec, this.readonly, this.fixedSize := doc, state, exec, readonly, fixedSize;
    }

    method UndoEditOp(op: EditOp) returns (r: Result<(), Error>)
      modifies this`doc
      ensures match UndoFault(op, old(doc), readonly, fixedSize)
              case None => UndoFault(op, old(doc), false, false).None? && r.Ok? && doc == UndoOp(op, old(doc))
              case Some(e) => r == Err(e) && doc == old(doc)
    {
      var fault := UndoFault(op, doc, readonly, fixedSize);
      if fault.Some? {
        return Err(fault.value);
      }
      doc := UndoOp(op, doc);
      return Ok(());
    }

    /** Undo applied operations, the last one first. */
    method RollBack(ops: seq<EditOp>, ghost base: DocState) returns (r: Result<(), Error>)
      requires Chained(ops, base, doc) && Undoable(ops, readonly, fixedSize)
      modifies this`doc
      ensures r.Ok? && doc == base
    {
      hide Links, UndoOp, Undoable;
      var i := |ops|;
      assert ops[..i] == ops;
      while i > 0
        invariant i <= |ops| && Chained(ops[..i], base, doc)
      {
        i := i - 1;
        ghost var was := doc;
        assert ButLast(ops[..i + 1]) == ops[..i] && LastOp(ops[..i + 1]) == ops[i];
        ghost var mid :| Chained(ops[..i], base, mid) && Links(ops[i], mid, doc);
        LinksExact(ops[i], mid, doc);
        assert ops[i] in ops;
        UndoAccepted(ops, ops[i], mid, doc, readonly, fixedSize);
        var undone := UndoEditOp(ops[i]);
        if undone.Err? {
          return undone;
        }
      }
      return Ok(());
    }

    /**
     * Run commands in order, each where its predecessor left off. A run that must be able to roll back
     * refuses saves and exports before it starts.
     */
    method ExecuteBatch(commands: seq<Command>, options: BatchOptions) returns (r: Result<Report, string>)
      requires Lawful(exec, readonly, fixedSize)
      modifies this`doc, this`state
      ensures options.onError.Rollback? && !NoneBarred(commands) ==> r == Err(BARRED_MESSAGE) && doc == old(doc) && state == old(state)
      ensures !(options.onError.Rollback? && !NoneBarred(commands)) ==>
        var p := Fold(exec, Begin(old(doc), old(state)), commands, options);
        r == Ok(Finish(p, options.undo)) && doc == p.doc && state == p.state
      ensures r.Ok? ==> BatchLeaves(exec, old(doc), old(state), commands, options, doc, state, r.value)
    {
      hide Lawful, Coherent, Chained, Undoable, UndoOps, Effective, Fold, OpsOf, BatchLeaves;
      if options.onError == Rollback && exists c :: c in commands && c.Barred() {
        return Err(BARRED_MESSAGE);
      }
      var initial := state;
      var report := EmptyReport();
      var groupStart := initial;
      var groupOps: seq<EditOp>, appliedOps: seq<EditOp> := [], [];
      ghost var begin := Begin(doc, state);
      ghost var p := begin;
      FoldNone(exec, begin, options);
      BeginCoherent(doc, state, options.undo, readonly, fixedSize);
      for i := 0 to |commands|
        invariant p == Progress(doc, state, initial, p.base, groupStart, groupOps, appliedOps, report)
        invariant p == Fold(exec, begin, commands[..i], options)
        invariant report.error.None? && Coherent(p, options.undo, readonly, fixedSize)
      {
        var before := state;
        var d := exec(doc, state, commands[i]);
        assert commands[..i + 1] == commands[..i] + [commands[i]];
        FoldSnoc(exec, begin, commands[..i], commands[i], options);
        AdvanceCoherent(exec, p, commands[i], options, readonly, fixedSize);
        ghost var next := Advance(exec, p, commands[i], options);
        state := d.state;
        if d.Failed? {
          if options.onError == Rollback {
            CoherentFacts(p, options.undo, readonly, fixedSize);
            ChainedRewinds(appliedOps, p.base, doc);
            var undone := RollBack(appliedOps, p.base);
            if undone.Err? {
              return Err("undo failed");
            }
            state := initial;
            groupOps, appliedOps := [], [];
            report := report.(undoSteps := [], outcomes := []);
          }
          report := report.(error := Some(d.error));
          p := next;
          FoldStops(exec, begin, commands, i + 1, options);
          break;
        }
        doc := d.doc;
        if d.saved {
          groupOps, appliedOps := [], [];
          report := report.(undoSteps := [], saved := true);
        }
        var effective := Effective(d.ops);
        if effective != [] {
          appliedOps := appliedOps + effective;
          match options.undo {
            case Group =>
              if groupOps == [] {
                groupStart := before;
              }
              groupOps := groupOps + effective;
            case PerStep =>
              report := report.(undoSteps := report.undoSteps + [ExecStep(before, state, effective)]);
          }
        }
        report := report.(outcomes := report.outcomes + [d.outcome], stepsCompleted := report.stepsCompleted + 1);
        p := next;
      }
      assert commands[..|commands|] == commands;
      BatchIsRun(exec, begin.doc, begin.state, commands, options, readonly, fixedSize);
      if options.undo == Group && groupOps != [] {
        report := report.(undoSteps := report.undoSteps + [ExecStep(groupStart, state, groupOps)]);
      }
      return Ok(report);
    }
  }

  lemma {:induction false} FoldNone(exec: Executor, start: Progress, options: BatchOptions)
    ensures Fold(exec, start, [], options) == start
  {
  }

  lemma {:induction false} CoherentFacts(p: Progress, undo: UndoPolicy, readonly: bool, fixedSize: bool)
    requires Coherent(p, undo, readonly, fixedSize)
    ensures Chained(p.appliedOps, p.base, p.doc) && Undoable(p.appliedOps, readonly, fixedSize)
  {
  }

  lemma {:induction false} UndoAccepted(ops: seq<EditOp>, op: EditOp, s: DocState, t: DocState, readonly: bool,
        fixedSize: bool)
    requires Undoable(ops, readonly, fixedSize) && op in ops && Links(op, s, t)
    ensures UndoFault(op, t, readonly, fixedSize).None?
  {
    LinksExact(op, s, t);
  }
}
