/**
 * The macro driver: it resolves one step at a time against what earlier steps bound, runs it as a batch of
 * one, and does its own grouping and rollback. It must end as one batch of the resolved commands would.
 */
module Macros {
  import opened Common
  import opened Documents
  import opened Histories
  import opened Batches

  type Context = map<string, seq<Byte>>

  // How a step becomes a command, and what its outcome binds for later steps.
  datatype MacroStep = MacroStep(
    resolve: Context -> Result<Command, string>,
    bind: (Context, Command, Outcome) -> Result<Context, string>)

  datatype SelectionPolicy = Inherit | Clear | Require

  datatype MacroProgram = MacroProgram(selection: SelectionPolicy, options: BatchOptions, steps: seq<MacroStep>)

  // The error of a command is reported under the driver's own prefix.
  function Wrapped(error: string): string {
    "command error: " + error
  }

  // ----- a macro run, as a fold over its steps

  // `issued` are the commands handed to the batch; `own` is the error the driver itself raised, if it did.
  datatype MacroRun = MacroRun(p: Progress, context: Context, issued: seq<Command>, own: Option<string>)

  ghost function Relabel(p: Progress): Progress {
    if p.report.error.Some? then p.(report := p.report.(error := Some(Wrapped(p.report.error.value)))) else p
  }

  ghost function OwnFailure(m: MacroRun, error: string, options: BatchOptions): MacroRun {
    m.(p := Fail(m.p, error, options.onError), own := Some(error))
  }

  ghost function MacroAdvance(exec: Executor, m: MacroRun, step: MacroStep, options: BatchOptions): MacroRun {
    if m.p.report.error.Some? then m
    else
      match step.resolve(m.context)
      case Err(e) => OwnFailure(m, e, options)
      case Ok(c) =>
        if options.onError.Rollback? && c.Barred() then OwnFailure(m, Wrapped(BARRED_MESSAGE), options)
        else
          var q := m.(p := Relabel(Advance(exec, m.p, c, options)), issued := m.issued + [c]);
          if q.p.report.error.Some? || q.p.report.outcomes == [] then q
          else
            match step.bind(m.context, c, q.p.report.outcomes[|q.p.report.outcomes| - 1])
            case Err(e) => OwnFailure(q, e, options)
            case Ok(context) => q.(context := context)
  }

  ghost function MacroFold(exec: Executor, start: Progress, steps: seq<MacroStep>, options: BatchOptions): MacroRun {
    if steps == [] then MacroRun(start, map[], [], None)
    else MacroAdvance(exec, MacroFold(exec, start, steps[..|steps| - 1], options), steps[|steps| - 1], options)
  }

  // Two runs that differ at most in the wording of their error.
  ghost predicate SameRun(p: Progress, q: Progress) {
    && (p.report.error.Some? <==> q.report.error.Some?)
    && p == q.(report := q.report.(error := p.report.error))
  }

  // What one batch of the issued commands does, ended by the driver's own error when it raised one.
  ghost function BatchOfIssued(exec: Executor, start: Progress, m: MacroRun, options: BatchOptions): Progress {
    var p := Fold(exec, start, m.issued, options);
    if m.own.Some? then Fail(p, m.own.value, options.onError) else p
  }

  ghost predicate Simulates(exec: Executor, start: Progress, m: MacroRun, options: BatchOptions) {
    && SameRun(m.p, BatchOfIssued(exec, start, m, options))
    && (m.own.Some? ==> Fold(exec, start, m.issued, options).report.error.None? && m.p.report.error.Some?)
    && (options.onError.Rollback? ==> NoneBarred(m.issued))
  }

  lemma {:induction false} OwnFailureSimulates(exec: Executor, start: Progress, m: MacroRun, error: string,
        options: BatchOptions)
    requires Simulates(exec, start, m, options) && m.p.report.error.None?
    ensures Simulates(exec, start, OwnFailure(m, error, options), options)
  {
    hide Fold, UndoOps;
  }

  lemma {:induction false} IssueSimulates(exec: Executor, start: Progress, m: MacroRun, c: Command,
        options: BatchOptions)
    requires Simulates(exec, start, m, options) && m.p.report.error.None? && (options.onError.Rollback? ==> !c.Barred())
    ensures Simulates(exec, start, m.(p := Relabel(Advance(exec, m.p, c, options)), issued := m.issued + [c]), options)
  {
    hide Fold, Advance, UndoOps;
    FoldSnoc(exec, start, m.issued, c, options);
    assert forall x :: x in m.issued + [c] ==> x in m.issued || x == c;
  }

  lemma {:induction false} RebindSimulates(exec: Executor, start: Progress, m: MacroRun, context: Context,
        options: BatchOptions)
    requires Simulates(exec, start, m, options)
    ensures Simulates(exec, start, m.(context := context), options)
  {
    hide Fold, UndoOps;
  }

  lemma {:induction false} MacroAdvanceSimulates(exec: Executor, start: Progress, m: MacroRun, step: MacroStep,
        options: BatchOptions)
    requires Simulates(exec, start, m, options)
    ensures Simulates(exec, start, MacroAdvance(exec, m, step, options), options)
  {
    hide Fold, Advance, UndoOps, Simulates, Fail;
    if m.p.report.error.None? {
      match step.resolve(m.context)
      case Err(e) => OwnFailureSimulates(exec, start, m, e, options);
      case Ok(c) =>
        if options.onError.Rollback? && c.Barred() {
          OwnFailureSimulates(exec, start, m, Wrapped(BARRED_MESSAGE), options);
        } else {
          IssueSimulates(exec, start, m, c, options);
          var q := m.(p := Relabel(Advance(exec, m.p, c, options)), issued := m.issued + [c]);
          if q.p.report.error.None? && q.p.report.outcomes != [] {
            match step.bind(m.context, c, q.p.report.outcomes[|q.p.report.outcomes| - 1])
            case Err(e) => OwnFailureSimulates(exec, start, q, e, options);
            case Ok(context) => RebindSimulates(exec, start, q, context, options);
          }
        }
    }
  }

  lemma {:induction false} MacroFoldSimulates(exec: Executor, start: Progress, steps: seq<MacroStep>,
        options: BatchOptions)
    requires start.report.error.None?
    ensures Simulates(exec, start, MacroFold(exec, start, steps, options), options)
    ensures
      var m := MacroFold(exec, start, steps, options);
      |m.issued| <= |steps| && (m.p.report.error.None? ==> |m.issued| == |steps|)
    decreases |steps|
  {
    hide Advance, UndoOps, Simulates;
    if steps == [] {
      NothingIssued(exec, start, options);
    } else {
      var front := steps[..|steps| - 1];
      MacroFoldSimulates(exec, start, front, options);
      MacroAdvanceSimulates(exec, start, MacroFold(exec, start, front, options), steps[|steps| - 1], options);
    }
  }

  lemma {:induction false} NothingIssued(exec: Executor, start: Progress, options: BatchOptions)
    ensures Simulates(exec, start, MacroRun(start, map[], [], None), options)
  {
  }

  /**
   * The driver simulates the batch executor: under every undo and error policy it leaves the same document
   * and state, the same undo steps and the same count of completed steps as one batch of the resolved
   * commands, ended by the driver's own error if it raised one.
   */
  lemma {:induction false} MacroSimulatesBatch(exec: Executor, doc: DocState, state: ExecState,
        steps: seq<MacroStep>, options: BatchOptions)
    ensures
      var m := MacroFold(exec, Begin(doc, state), steps, options);
      var p := BatchOfIssued(exec, Begin(doc, state), m, options);
      && m.p.doc == p.doc && m.p.state == p.state
      && Finish(m.p, options.undo).undoSteps == Finish(p, options.undo).undoSteps
      && m.p.report.stepsCompleted == p.report.stepsCompleted && m.p.report.outcomes == p.report.outcomes
      && m.p.report.saved == p.report.saved && (m.p.report.error.Some? <==> p.report.error.Some?)
      && (m.p.report.error.None? ==> |m.issued| == |steps|)
      && (options.onError.Rollback? ==> NoneBarred(m.issued))
  {
    hide Fold, MacroFold, UndoOps, Fail;
    MacroFoldSimulates(exec, Begin(doc, state), steps, options);
  }

  /** A macro that must roll back and fails, in a command or in the driver, leaves everything as it was. */
  lemma {:induction false} MacroRollbackRestores(exec: Executor, doc: DocState, state: ExecState,
        steps: seq<MacroStep>, undo: UndoPolicy, readonly: bool, fixedSize: bool)
    requires Lawful(exec, readonly, fixedSize)
    ensures
      var m := MacroFold(exec, Begin(doc, state), steps, BatchOptions(undo, Rollback));
      m.p.report.error.Some? ==> m.p.doc == doc && m.p.state == state && Finish(m.p, undo).undoSteps == [] && m.p.report.outcomes == []
  {
    hide Lawful, Fold, MacroFold, UndoOps, Coherent, Fail;
    var options := BatchOptions(undo, Rollback);
    var m := MacroFold(exec, Begin(doc, state), steps, options);
    MacroFoldSimulates(exec, Begin(doc, state), steps, options);
    RollbackRestores(exec, doc, state, m.issued, undo, readonly, fixedSize);
    if m.own.Some? {
      var p := Fold(exec, Begin(doc, state), m.issued, options);
      BeginCoherent(doc, state, undo, readonly, fixedSize);
      FoldCoherent(exec, Begin(doc, state), m.issued, options, readonly, fixedSize);
      CoherentAnyState(p, p.initial, undo, readonly, fixedSize);
      FailRestores(p, m.own.value, undo, readonly, fixedSize);
    }
  }

  // ----- what a macro run is, step by step

  // How a macro run ends: with all steps done, or at a step that could not be resolved, that had to be refused,
  // whose command failed, or whose outcome could not be bound.
  datatype Ending = Completed | Unresolved | Refused | CommandFailed | Unbound

  // Each step is resolved against what the steps before it bound, and its command runs where the one before it
  // left off; the outcome of each but the last is bound for the steps after it.
  ghost predicate Issues(exec: Executor, doc: DocState, state: ExecState, steps: seq<MacroStep>, contexts: seq<Context>,
      issued: seq<Command>, ds: seq<Stepped>)
  {
    && |ds| == |issued| <= |steps| && Ran(exec, doc, state, issued, ds)
    && contexts != [] && contexts[0] == map[] && |issued| <= |contexts| <= |issued| + 1
    && (forall i :: 0 <= i < |issued| ==> steps[i].resolve(contexts[i]) == Ok(issued[i]))
    && (forall i :: 0 <= i < |contexts| - 1 ==>
          ds[i].Done? && steps[i].bind(contexts[i], issued[i], ds[i].outcome) == Ok(contexts[i + 1]))
  }

  // Which step ends it, and with which error.
  ghost predicate EndsWith(steps: seq<MacroStep>, options: BatchOptions, contexts: seq<Context>, issued: seq<Command>,
      ds: seq<Stepped>, ending: Ending, error: Option<string>)
    requires |ds| == |issued| <= |steps| && contexts != []
  {
    var n, last := |issued|, |contexts| - 1;
    match ending
    case Completed => n == |steps| && last == n && error == None
    case Unresolved =>
      n < |steps| && last == n && steps[n].resolve(contexts[n]).Err? && error == Some(steps[n].resolve(contexts[n]).error)
    case Refused =>
      && n < |steps| && last == n && options.onError.Rollback? && steps[n].resolve(contexts[n]).Ok?
      && (var c := steps[n].resolve(contexts[n]).value; c.kind.Save? || c.kind.ExportBinary?)
      && error == Some("command error: " + BARRED_MESSAGE)
    case CommandFailed => n > 0 && last == n - 1 && ds[last].Failed? && error == Some("command error: " + ds[last].error)
    case Unbound =>
      && n > 0 && last == n - 1 && ds[last].Done?
      && (var bound := steps[last].bind(contexts[last], issued[last], ds[last].outcome); bound.Err? && error == Some(bound.error))
  }

  /** What a macro leaves, told without the fold: there is a run of its steps that leaves just that. */
  ghost predicate MacroLeaves(exec: Executor, doc: DocState, state: ExecState, steps: seq<MacroStep>,
      options: BatchOptions, docNow: DocState, stateNow: ExecState, report: Report)
  {
    exists contexts: seq<Context>, issued: seq<Command>, ds: seq<Stepped>, ending: Ending, error: Option<string> ::
      Issues(exec, doc, state, steps, contexts, issued, ds) && EndsWith(steps, options, contexts, issued, ds, ending, error)
      && (options.onError.Rollback? ==> NoneBarred(issued))
      && Leaves(ds, DoneCount(ds), doc, state, options, error, docNow, stateNow, report)
  }

  // ----- the fold keeps to that run

  // The witnesses of such a run.
  datatype Trace = Trace(contexts: seq<Context>, issued: seq<Command>, ds: seq<Stepped>, ending: Ending, error: Option<string>,
    s: nat, at: seq<nat>)

  // A run that has ended, with or without an error, or that may go on.
  ghost predicate Traced(exec: Executor, doc: DocState, state: ExecState, steps: seq<MacroStep>, options: BatchOptions,
      m: MacroRun, t: Trace, readonly: bool, fixedSize: bool)
  {
    && Issues(exec, doc, state, steps, t.contexts, t.issued, t.ds)
    && EndsWith(steps, options, t.contexts, t.issued, t.ds, t.ending, t.error)
    && (options.onError.Rollback? ==> NoneBarred(t.issued))
    && m.p.report.error == t.error
    && if t.ending.Completed? then
         && m.context == t.contexts[|t.issued|]
         && Tracks(m.p, t.ds, |t.ds|, t.s, t.at, doc, state, options.undo) && Coherent(m.p, options.undo, readonly, fixedSize)
       else Leaves(t.ds, DoneCount(t.ds), doc, state, options, t.error, m.p.doc, m.p.state, Finish(m.p, options.undo))
  }

  lemma {:induction false} TracedNone(exec: Executor, doc: DocState, state: ExecState, options: BatchOptions,
        readonly: bool, fixedSize: bool)
    ensures
      Traced(exec, doc, state, [], options, MacroRun(Begin(doc, state), map[], [], None),
             Trace([map[]], [], [], Completed, None, 0, []), readonly, fixedSize)
  {
    hide Tracks, Coherent;
    BeginTracks(doc, state, options.undo);
    BeginCoherent(doc, state, options.undo, readonly, fixedSize);
  }

  // A run that has ended early is the same with more steps behind it.
  lemma {:induction false} TracedMore(exec: Executor, doc: DocState, state: ExecState, steps: seq<MacroStep>,
        step: MacroStep, options: BatchOptions, m: MacroRun, t: Trace, readonly: bool, fixedSize: bool)
    requires Traced(exec, doc, state, steps, options, m, t, readonly, fixedSize) && !t.ending.Completed?
    ensures Traced(exec, doc, state, steps + [step], options, m, t, readonly, fixedSize)
  {
    hide Ran, Leaves, NoneBarred, Finish, DoneCount;
    assert forall i :: 0 <= i < |steps| ==> (steps + [step])[i] == steps[i];
  }

  // The driver's own error, raised before the next command.
  lemma {:induction false} TracedStop(exec: Executor, doc: DocState, state: ExecState, steps: seq<MacroStep>,
        step: MacroStep, options: BatchOptions, m: MacroRun, t: Trace, ending: Ending, error: string, readonly: bool,
        fixedSize: bool)
    requires Traced(exec, doc, state, steps, options, m, t, readonly, fixedSize) && t.ending.Completed?
    requires Lawful(exec, readonly, fixedSize)
    requires EndsWith(steps + [step], options, t.contexts, t.issued, t.ds, ending, Some(error)) && !ending.Completed?
    ensures
      Traced(exec, doc, state, steps + [step], options, OwnFailure(m, error, options),
             t.(ending := ending, error := Some(error)), readonly, fixedSize)
  {
    hide Ran, Leaves, NoneBarred, Finish, Tracks, Coherent, Lawful, Fail;
    assert forall i :: 0 <= i < |steps| ==> (steps + [step])[i] == steps[i];
    EndFails(exec, doc, state, t.issued, m.p, t.ds, |t.ds|, t.s, t.at, error, options, readonly, fixedSize);
    FailFails(m.p, error, options.onError);
  }

  // What a failure leaves, where no command that had to be refused was issued.
  lemma {:induction false} EndFails(exec: Executor, doc: DocState, state: ExecState, issued: seq<Command>, p: Progress,
        ds: seq<Stepped>, n: nat, s: nat, at: seq<nat>, error: string, options: BatchOptions, readonly: bool, fixedSize: bool)
    requires Lawful(exec, readonly, fixedSize) && (options.onError.Rollback? ==> NoneBarred(issued))
    requires Ran(exec, doc, state, issued, ds) && |ds| == |issued| && n == DoneCount(ds)
    requires Tracks(p, ds, n, s, at, doc, state, options.undo) && Coherent(p, options.undo, readonly, fixedSize)
    ensures
      var q := Fail(p.(state := StateBefore(ds, state, |ds|)), error, options.onError);
      Leaves(ds, n, doc, state, options, Some(error), q.doc, q.state, Finish(q, options.undo))
    ensures n == |ds| ==> p.(state := StateBefore(ds, state, |ds|)) == p && DoneCount(ds) == |ds|
  {
    hide Leaves, NoneBarred, Finish, Coherent, Lawful, Fail, Ran, Collects, LastSave, Changing, Counted;
    assert n == |ds| ==> p.(state := StateBefore(ds, state, |ds|)) == p;
    hide Tracks;
    if options.onError.Rollback? {
      NothingSaved(exec, doc, state, issued, ds, readonly, fixedSize);
      TracksSaved(p, ds, n, s, at, doc, state, options.undo);
    }
    FailLeaves(p, ds, n, s, at, doc, state, error, options, readonly, fixedSize);
  }

  lemma {:induction false} RelabelFail(p: Progress, error: string, onError: ErrorPolicy)
    ensures Relabel(Fail(p, error, onError)) == Fail(p, Wrapped(error), onError)
  {
    hide UndoOps;
  }

  // The contexts and commands of a run with one more command.
  lemma {:induction false} IssuesMore(exec: Executor, doc: DocState, state: ExecState, steps: seq<MacroStep>, step: MacroStep,
        contexts: seq<Context>, issued: seq<Command>, ds: seq<Stepped>, c: Command)
    requires Issues(exec, doc, state, steps, contexts, issued, ds) && |contexts| == |issued| + 1 && |issued| == |steps|
    requires AllDone(ds, |ds|) && step.resolve(contexts[|issued|]) == Ok(c)
    ensures
      var d := exec(DocBefore(ds, doc, |ds|), StateBefore(ds, state, |ds|), c);
      && Issues(exec, doc, state, steps + [step], contexts, issued + [c], ds + [d])
      && (d.Done? && step.bind(contexts[|issued|], c, d.outcome).Ok? ==>
            Issues(exec, doc, state, steps + [step], contexts + [step.bind(contexts[|issued|], c, d.outcome).value],
                   issued + [c], ds + [d]))
  {
    hide Ran;
    RanMore(exec, doc, state, issued, ds, c);
    assert forall i :: 0 <= i < |steps| ==> (steps + [step])[i] == steps[i] && (issued + [c])[i] == issued[i];
    var d := exec(DocBefore(ds, doc, |ds|), StateBefore(ds, state, |ds|), c);
    assert forall i :: 0 <= i < |ds| ==> (ds + [d])[i] == ds[i];
  }

  // A command is issued and fails.
  lemma {:induction false} TracedFailed(exec: Executor, doc: DocState, state: ExecState, steps: seq<MacroStep>,
        step: MacroStep, options: BatchOptions, m: MacroRun, t: Trace, c: Command, readonly: bool, fixedSize: bool)
    requires Traced(exec, doc, state, steps, options, m, t, readonly, fixedSize) && t.ending.Completed?
    requires Lawful(exec, readonly, fixedSize) && step.resolve(m.context) == Ok(c) && exec(m.p.doc, m.p.state, c).Failed?
    requires options.onError.Rollback? ==> !c.kind.Save? && !c.kind.ExportBinary?
    ensures
      var d := exec(m.p.doc, m.p.state, c);
      Traced(exec, doc, state, steps + [step], options,
             m.(p := Fail(m.p.(state := d.state), Wrapped(d.error), options.onError), issued := m.issued + [c]),
             t.(issued := t.issued + [c], ds := t.ds + [d], ending := CommandFailed, error := Some(Wrapped(d.error))),
             readonly, fixedSize)
  {
    hide Ran, Leaves, Finish, Tracks, Coherent, Lawful, Fail;
    var d := exec(m.p.doc, m.p.state, c);
    var ds := t.ds + [d];
    TracksFacts(m.p, t.ds, t.s, t.at, doc, state, options.undo);
    IssuesMore(exec, doc, state, steps, step, t.contexts, t.issued, t.ds, c);
    TracksMore(m.p, t.ds, d, t.s, t.at, doc, state, options.undo);
    EndFails(exec, doc, state, t.issued + [c], m.p, ds, |t.ds|, t.s, t.at, Wrapped(d.error), options, readonly, fixedSize);
    FailFails(m.p.(state := d.state), Wrapped(d.error), options.onError);
  }

  // A command is issued and succeeds.
  lemma {:induction false} TracedDone(exec: Executor, doc: DocState, state: ExecState, steps: seq<MacroStep>,
        step: MacroStep, options: BatchOptions, m: MacroRun, t: Trace, c: Command, readonly: bool, fixedSize: bool)
      returns (more: Trace)
    requires Traced(exec, doc, state, steps, options, m, t, readonly, fixedSize) && t.ending.Completed?
    requires Lawful(exec, readonly, fixedSize) && step.resolve(m.context) == Ok(c) && exec(m.p.doc, m.p.state, c).Done?
    requires options.onError.Rollback? ==> !c.kind.Save? && !c.kind.ExportBinary?
    ensures
      var d := exec(m.p.doc, m.p.state, c);
      var q := m.(p := Succeed(m.p, d, options.undo), issued := m.issued + [c]);
      Traced(exec, doc, state, steps + [step], options,
             match step.bind(m.context, c, d.outcome)
             case Err(e) => OwnFailure(q, e, options)
             case Ok(context) => q.(context := context),
             more, readonly, fixedSize)
  {
    hide Ran, Leaves, Finish, Tracks, Coherent, Lawful, Fail, Succeed;
    var d := exec(m.p.doc, m.p.state, c);
    var ds := t.ds + [d];
    var p := Succeed(m.p, d, options.undo);
    TracksFacts(m.p, t.ds, t.s, t.at, doc, state, options.undo);
    IssuesMore(exec, doc, state, steps, step, t.contexts, t.issued, t.ds, c);
    AdvanceCoherent(exec, m.p, c, options, readonly, fixedSize);
    var s, at := SucceedTracks(m.p, t.ds, d, t.s, t.at, doc, state, options.undo);
    TracksFacts(p, ds, s, at, doc, state, options.undo);
    match step.bind(m.context, c, d.outcome)
    case Err(e) =>
      more := Trace(t.contexts, t.issued + [c], ds, Unbound, Some(e), s, at);
      EndFails(exec, doc, state, t.issued + [c], p, ds, |ds|, s, at, e, options, readonly, fixedSize);
      FailFails(p, e, options.onError);
    case Ok(context) =>
      more := Trace(t.contexts + [context], t.issued + [c], ds, Completed, None, s, at);
  }

  lemma {:induction false} MacroFoldRuns(exec: Executor, doc: DocState, state: ExecState, steps: seq<MacroStep>,
        options: BatchOptions, readonly: bool, fixedSize: bool) returns (t: Trace)
    requires Lawful(exec, readonly, fixedSize)
    ensures Traced(exec, doc, state, steps, options, MacroFold(exec, Begin(doc, state), steps, options), t, readonly, fixedSize)
    decreases |steps|
  {
    hide Lawful, Traced, Fail, Succeed;
    if steps == [] {
      t := Trace([map[]], [], [], Completed, None, 0, []);
      TracedNone(exec, doc, state, options, readonly, fixedSize);
    } else {
      var front, step := steps[..|steps| - 1], steps[|steps| - 1];
      assert steps == front + [step];
      var m := MacroFold(exec, Begin(doc, state), front, options);
      t := MacroFoldRuns(exec, doc, state, front, options, readonly, fixedSize);
      t := TracedAdvance(exec, doc, state, front, step, options, m, t, readonly, fixedSize);
    }
  }

  lemma {:induction false} TracedFacts(exec: Executor, doc: DocState, state: ExecState, steps: seq<MacroStep>,
        options: BatchOptions, m: MacroRun, t: Trace, readonly: bool, fixedSize: bool)
    requires Traced(exec, doc, state, steps, options, m, t, readonly, fixedSize)
    ensures m.p.report.error.Some? <==> !t.ending.Completed?
    ensures t.ending.Completed? ==> |t.contexts| == |t.issued| + 1 && m.context == t.contexts[|t.issued|]
    ensures t.ending.Completed? ==> |t.ds| == |t.issued| == |steps|
  {
    hide Ran, Leaves, Tracks, Coherent, NoneBarred;
  }

  lemma {:induction false} TracedAdvance(exec: Executor, doc: DocState, state: ExecState, steps: seq<MacroStep>,
        step: MacroStep, options: BatchOptions, m: MacroRun, t: Trace, readonly: bool, fixedSize: bool) returns (more: Trace)
    requires Traced(exec, doc, state, steps, options, m, t, readonly, fixedSize) && Lawful(exec, readonly, fixedSize)
    ensures Traced(exec, doc, state, steps + [step], options, MacroAdvance(exec, m, step, options), more, readonly, fixedSize)
  {
    hide Lawful, Traced, Fail, Succeed;
    TracedFacts(exec, doc, state, steps, options, m, t, readonly, fixedSize);
    if m.p.report.error.Some? {
      more := t;
      TracedMore(exec, doc, state, steps, step, options, m, t, readonly, fixedSize);
      return;
    }
    match step.resolve(m.context)
    case Err(e) =>
      more := t.(ending := Unresolved, error := Some(e));
      TracedStop(exec, doc, state, steps, step, options, m, t, Unresolved, e, readonly, fixedSize);
    case Ok(c) =>
      if options.onError.Rollback? && c.Barred() {
        more := t.(ending := Refused, error := Some(Wrapped(BARRED_MESSAGE)));
        TracedStop(exec, doc, state, steps, step, options, m, t, Refused, Wrapped(BARRED_MESSAGE), readonly, fixedSize);
      } else {
        var d := exec(m.p.doc, m.p.state, c);
        if d.Failed? {
          more := t.(issued := t.issued + [c], ds := t.ds + [d], ending := CommandFailed, error := Some(Wrapped(d.error)));
          TracedFailed(exec, doc, state, steps, step, options, m, t, c, readonly, fixedSize);
          RelabelFail(m.p.(state := d.state), d.error, options.onError);
          FailFails(m.p.(state := d.state), d.error, options.onError);
        } else {
          more := TracedDone(exec, doc, state, steps, step, options, m, t, c, readonly, fixedSize);
          SucceedGoesOn(m.p, d, options.undo);
        }
      }
  }

  lemma {:induction false} SucceedGoesOn(p: Progress, d: Stepped, undo: UndoPolicy)
    requires d.Done? && p.report.error.None?
    ensures
      var q := Succeed(p, d, undo);
      q.report.error.None? && q.report.outcomes != [] && q.report.outcomes[|q.report.outcomes| - 1] == d.outcome
  {
    hide Effective;
  }

  /** A macro leaves what the run of its steps leaves, each resolved against what the steps before it bound. */
  lemma {:induction false} MacroIsRun(exec: Executor, doc: DocState, state: ExecState, steps: seq<MacroStep>,
        options: BatchOptions, readonly: bool, fixedSize: bool)
    requires Lawful(exec, readonly, fixedSize)
    ensures
      var m := MacroFold(exec, Begin(doc, state), steps, options);
      MacroLeaves(exec, doc, state, steps, options, m.p.doc, m.p.state, Finish(m.p, options.undo))
  {
    hide Lawful, Tracks, Coherent, Leaves, MacroFold, Issues, EndsWith, NoneBarred, Finish;
    var m := MacroFold(exec, Begin(doc, state), steps, options);
    var t := MacroFoldRuns(exec, doc, state, steps, options, readonly, fixedSize);
    if t.ending.Completed? {
      CompletedLeaves(exec, doc, state, steps, options, m, t, readonly, fixedSize);
    }
    assert Leaves(t.ds, DoneCount(t.ds), doc, state, options, t.error, m.p.doc, m.p.state, Finish(m.p, options.undo));
  }

  lemma {:induction false} CompletedLeaves(exec: Executor, doc: DocState, state: ExecState, steps: seq<MacroStep>,
        options: BatchOptions, m: MacroRun, t: Trace, readonly: bool, fixedSize: bool)
    requires Traced(exec, doc, state, steps, options, m, t, readonly, fixedSize) && t.ending.Completed?
    ensures Leaves(t.ds, DoneCount(t.ds), doc, state, options, t.error, m.p.doc, m.p.state, Finish(m.p, options.undo))
  {
    hide Tracks, Coherent, Leaves, Issues, NoneBarred, Finish;
    TracksFacts(m.p, t.ds, t.s, t.at, doc, state, options.undo);
    TracksLeaves(m.p, t.ds, t.s, t.at, doc, state, options);
  }

  // ----- the driver itself

  // A batch of one command is one step of the fold.
  lemma {:induction false} BatchOfOne(exec: Executor, doc: DocState, state: ExecState, c: Command)
    ensures
      var options := BatchOptions(PerStep, Stop);
      var p := Fold(exec, Begin(doc, state), [c], options);
      p == Advance(exec, Begin(doc, state), c, options) && Finish(p, PerStep) == p.report
  {
    assert [c][..0] == [];
    FoldNone(exec, Begin(doc, state), BatchOptions(PerStep, Stop));
    hide Advance;
  }

  // A run continued by the report of a batch of one, `s`.
  ghost function Merged(p: Progress, s: Progress, undo: UndoPolicy): Progress {
    var moved := p.(doc := s.doc, state := s.state);
    var kept := if s.report.saved then AfterSave(moved, s.doc) else moved;
    var recorded := Record(kept, p.state, if s.report.undoSteps == [] then [] else s.report.undoSteps[0].ops, undo);
    recorded.(report := recorded.report.(
      outcomes := recorded.report.outcomes + s.report.outcomes, stepsCompleted := recorded.report.stepsCompleted + s.report.stepsCompleted))
  }

  // Merging the report of a batch of one does what running the command in the batch would do.
  lemma {:induction false} OneCommand(exec: Executor, p: Progress, c: Command, options: BatchOptions)
    requires p.report.error.None?
    ensures
      var s := Advance(exec, Begin(p.doc, p.state), c, BatchOptions(PerStep, Stop));
      var q := Advance(exec, p, c, options);
      if s.report.error.Some? then
        s.doc == p.doc && Relabel(q) == Fail(p.(state := s.state), Wrapped(s.report.error.value), options.onError)
      else
        && q == Merged(p, s, options.undo) && q.report.error.None? && |s.report.outcomes| == 1
        && (s.report.undoSteps == [] || (|s.report.undoSteps| == 1 && s.report.undoSteps[0].before == p.state
              && s.report.undoSteps[0].after == s.state && s.report.undoSteps[0].ops != []))
  {
    hide UndoOps, Effective;
  }

  lemma {:induction false} MacroFoldSnoc(exec: Executor, start: Progress, steps: seq<MacroStep>, step: MacroStep,
        options: BatchOptions)
    ensures MacroFold(exec, start, steps + [step], options) == MacroAdvance(exec, MacroFold(exec, start, steps, options), step, options)
  {
    assert (steps + [step])[..|steps|] == steps;
  }

  lemma {:induction false} MacroFoldStops(exec: Executor, start: Progress, steps: seq<MacroStep>, k: nat,
        options: BatchOptions)
    requires k <= |steps| && MacroFold(exec, start, steps[..k], options).p.report.error.Some?
    ensures MacroFold(exec, start, steps, options) == MacroFold(exec, start, steps[..k], options)
    decreases |steps|
  {
    if k == |steps| {
      assert steps[..k] == steps;
    } else {
      var front := steps[..|steps| - 1];
      assert front[..k] == steps[..k];
      MacroFoldStops(exec, start, front, k, options);
    }
  }

  // What the driver keeps beside the document: the steps and operations collected so far.
  datatype Tally = Tally(groupStart: ExecState, groupOps: seq<EditOp>, appliedOps: seq<EditOp>, report: Report)

  // The run `p` is at: a document, a state and a tally.
  ghost predicate Stands(p: Progress, doc: DocState, state: ExecState, tally: Tally) {
    && p.doc == doc && p.state == state
    && p.groupStart == tally.groupStart && p.groupOps == tally.groupOps && p.appliedOps == tally.appliedOps && p.report == tally.report
  }

  class Driver {
    const session: Session

    constructor (session: Session)
      ensures this.session == session
    {
      this.session := session;
    }

    // Roll back when the policy says so, and report the error.
    method HandleMacroError(options: BatchOptions, error: string, tally: Tally, initial: ExecState, ghost p: Progress)
      returns (after: Tally)
      requires Coherent(p, options.undo, session.readonly, session.fixedSize)
      requires Stands(p, session.doc, session.state, tally) && p.initial == initial
      modifies session`doc, session`state
      ensures Stands(Fail(p, error, options.onError), session.doc, session.state, after)
    {
      hide Chained, Undoable, UndoOps, OpsOf;
      after := tally;
      if options.onError == Rollback {
        CoherentFacts(p, options.undo, session.readonly, session.fixedSize);
        ChainedRewinds(tally.appliedOps, p.base, session.doc);
        var undone := session.RollBack(tally.appliedOps, p.base);
        session.state := initial;
        after := after.(groupOps := [], appliedOps := [], report := after.report.(undoSteps := [], outcomes := []));
      }
      after := after.(report := after.report.(error := Some(error)));
    }

    // Run one resolved command as a batch of its own.
    method RunOne(c: Command, ghost p: Progress) returns (single: Report, ghost s: Progress)
      requires Lawful(session.exec, session.readonly, session.fixedSize)
      requires p.doc == session.doc && p.state == session.state && p.report.error.None?
      modifies session`doc, session`state
      ensures s == Advance(session.exec, Begin(p.doc, p.state), c, BatchOptions(PerStep, Stop))
      ensures session.doc == s.doc && session.state == s.state && single == s.report
    {
      hide Lawful, Fold, Advance, Coherent;
      var r := session.ExecuteBatch([c], BatchOptions(PerStep, Stop));
      BatchOfOne(session.exec, p.doc, p.state, c);
      s := Advance(session.exec, Begin(p.doc, p.state), c, BatchOptions(PerStep, Stop));
      match r
      case Ok(report) => single := report;
      case Err(_) => single := EmptyReport();
    }

    // Take over the undo steps of a batch of one, after forgetting everything before a save.
    method CollectSteps(options: BatchOptions, single: Report, before: ExecState, tally: Tally, ghost p: Progress,
          ghost s: Progress)
      returns (after: Tally)
      requires single == s.report && before == p.state && Stands(p, p.doc, p.state, tally)
      requires single.undoSteps == [] || (|single.undoSteps| == 1 && single.undoSteps[0].before == p.state
                 && single.undoSteps[0].after == s.state && single.undoSteps[0].ops != [])
      ensures after == Collected(p, s, options.undo, true)
    {
      after := tally;
      if single.saved {
        after := after.(groupOps := [], appliedOps := [], report := after.report.(undoSteps := [], saved := true));
      }
      for j := 0 to |single.undoSteps|
        invariant after == Collected(p, s, options.undo, j > 0)
      {
        var undoStep := single.undoSteps[j];
        if undoStep.ops != [] {
          after := after.(appliedOps := after.appliedOps + undoStep.ops);
          match options.undo {
            case Group =>
              if after.groupOps == [] {
                after := after.(groupStart := before);
              }
              after := after.(groupOps := after.groupOps + undoStep.ops);
            case PerStep =>
              after := after.(report := after.report.(undoSteps := after.report.undoSteps + [undoStep]));
          }
        }
      }
    }

    // One step of the macro: resolve, run, take over the report, bind the outcome.
    method RunStep(step: MacroStep, options: BatchOptions, initial: ExecState, context: Context, tally: Tally,
          ghost m: MacroRun)
      returns (bound: Context, after: Tally)
      requires Lawful(session.exec, session.readonly, session.fixedSize)
      requires Coherent(m.p, options.undo, session.readonly, session.fixedSize)
      requires Stands(m.p, session.doc, session.state, tally) && m.p.initial == initial && m.context == context && m.p.report.error.None?
      modifies session`doc, session`state
      ensures
        var next := MacroAdvance(session.exec, m, step, options);
        Stands(next.p, session.doc, session.state, after) && (next.p.report.error.None? ==> next.context == bound)
    {
      hide Lawful, Coherent, Advance, Fail, Collected;
      bound := context;
      var before := session.state;
      var resolved := step.resolve(context);
      if resolved.Err? {
        after := HandleMacroError(options, resolved.error, tally, initial, m.p);
        return;
      }
      var command := resolved.value;
      if options.onError == Rollback && command.Barred() {
        after := HandleMacroError(options, Wrapped(BARRED_MESSAGE), tally, initial, m.p);
        return;
      }
      OneCommand(session.exec, m.p, command, options);
      AdvanceCoherent(session.exec, m.p, command, options, session.readonly, session.fixedSize);
      var single, s := RunOne(command, m.p);
      if single.error.Some? {
        ghost var failed := m.p.(state := session.state);
        CoherentAnyState(m.p, session.state, options.undo, session.readonly, session.fixedSize);
        after := HandleMacroError(options, Wrapped(single.error.value), tally, initial, failed);
        FailKeeps(failed, Wrapped(single.error.value), options.onError);
        return;
      }
      after := CollectSteps(options, single, before, tally, m.p, s);
      after := after.(report := after.report.(stepsCompleted := after.report.stepsCompleted + single.stepsCompleted));
      var binding := if single.outcomes == [] then Ok(context) else step.bind(context, command, single.outcomes[|single.outcomes| - 1]);
      after := after.(report := after.report.(outcomes := after.report.outcomes + single.outcomes));
      ghost var q := Merged(m.p, s, options.undo);
      MergedStands(m.p, s, options.undo, after);
      if binding.Err? {
        after := HandleMacroError(options, binding.error, after, initial, q);
        return;
      }
      bound := binding.value;
    }

    /** Run the steps of a macro, one command at a time, each resolved against what the ones before it bound. */
    method ExecuteSteps(program: MacroProgram) returns (report: Report)
      requires Lawful(session.exec, session.readonly, session.fixedSize)
      modifies session`doc, session`state
      ensures
        var m := MacroFold(session.exec, Begin(old(session.doc), old(session.state)), program.steps, program.options);
        report == Finish(m.p, program.options.undo) && session.doc == m.p.doc && session.state == m.p.state
      ensures MacroLeaves(session.exec, old(session.doc), old(session.state), program.steps, program.options, session.doc,
                          session.state, report)
    {
      hide Lawful, Coherent, MacroFold, MacroAdvance, MacroLeaves;
      var options, steps := program.options, program.steps;
      var initial := session.state;
      var context: Context := map[];
      var tally := Tally(initial, [], [], EmptyReport());
      ghost var begin := Begin(session.doc, session.state);
      ghost var m := MacroRun(begin, map[], [], None);
      MacroFoldNone(session.exec, begin, options);
      BeginCoherent(session.doc, session.state, options.undo, session.readonly, session.fixedSize);
      for i := 0 to |steps|
        invariant Stands(m.p, session.doc, session.state, tally) && m.p.initial == initial && m.context == context
        invariant m == MacroFold(session.exec, begin, steps[..i], options) && m.p.report.error.None?
        invariant Coherent(m.p, options.undo, session.readonly, session.fixedSize)
      {
        ghost var next := MacroAdvance(session.exec, m, steps[i], options);
        assert steps[..i + 1] == steps[..i] + [steps[i]];
        MacroFoldSnoc(session.exec, begin, steps[..i], steps[i], options);
        MacroAdvanceCoherent(session.exec, m, steps[i], options, session.readonly, session.fixedSize);
        context, tally := RunStep(steps[i], options, initial, context, tally, m);
        m := next;
        if tally.report.error.Some? {
          MacroFoldStops(session.exec, begin, steps, i + 1, options);
          break;
        }
      }
      assert steps[..|steps|] == steps;
      MacroIsRun(session.exec, begin.doc, begin.state, steps, options, session.readonly, session.fixedSize);
      report := tally.report;
      if options.undo == Group && tally.groupOps != [] {
        report := report.(undoSteps := report.undoSteps + [ExecStep(tally.groupStart, session.state, tally.groupOps)]);
      }
    }
  }

  /** Start a macro under its selection policy: it may drop the selection, or refuse to run without one. */
  method ExecuteMacro(session: Session, program: MacroProgram) returns (r: Result<Report, string>)
    requires Lawful(session.exec, session.readonly, session.fixedSize)
    modifies session`doc, session`state
    ensures
      var start := if program.selection.Clear? then old(session.state).(selection := None) else old(session.state);
      var m := MacroFold(session.exec, Begin(old(session.doc), start), program.steps, program.options);
      if program.selection.Require? && start.selection.None? then
        r == Err("missing selection") && session.doc == old(session.doc) && session.state == old(session.state)
      else
        && r == Ok(Finish(m.p, program.options.undo)) && session.doc == m.p.doc && session.state == m.p.state
        && MacroLeaves(session.exec, old(session.doc), start, program.steps, program.options, session.doc, session.state, r.value)
  {
    hide Lawful, MacroFold, MacroLeaves;
    match program.selection {
      case Inherit =>
      case Clear => session.state := session.state.(selection := None);
      case Require =>
        if session.state.selection.None? {
          return Err("missing selection");
        }
    }
    var driver := new Driver(session);
    var report := driver.ExecuteSteps(program);
    return Ok(report);
  }

  // The driver's bookkeeping while it goes through the undo steps of a batch of one.
  ghost function Collected(p: Progress, s: Progress, undo: UndoPolicy, all: bool): Tally {
    var kept := if s.report.saved then AfterSave(p, s.doc) else p;
    var recorded := Record(kept.(state := s.state), p.state,
      if all && s.report.undoSteps != [] then s.report.undoSteps[0].ops else [], undo);
    Tally(recorded.groupStart, recorded.groupOps, recorded.appliedOps, recorded.report)
  }

  lemma {:induction false} MergedStands(p: Progress, s: Progress, undo: UndoPolicy, tally: Tally)
    requires
      var collected := Collected(p, s, undo, true);
      tally == collected.(report := collected.report.(
        outcomes := collected.report.outcomes + s.report.outcomes,
        stepsCompleted := collected.report.stepsCompleted + s.report.stepsCompleted))
    ensures Stands(Merged(p, s, undo), s.doc, s.state, tally) && Merged(p, s, undo).initial == p.initial
  {
  }

  lemma {:induction false} MacroAdvanceCoherent(exec: Executor, m: MacroRun, step: MacroStep, options: BatchOptions,
        readonly: bool, fixedSize: bool)
    requires Lawful(exec, readonly, fixedSize) && Coherent(m.p, options.undo, readonly, fixedSize) && m.p.report.error.None?
    ensures
      var next := MacroAdvance(exec, m, step, options);
      next.p.initial == m.p.initial && (next.p.report.error.None? ==> Coherent(next.p, options.undo, readonly, fixedSize))
  {
    hide Lawful, Coherent, UndoOps, Effective;
    if step.resolve(m.context).Ok? {
      AdvanceCoherent(exec, m.p, step.resolve(m.context).value, options, readonly, fixedSize);
    }
  }

  lemma {:induction false} MacroFoldNone(exec: Executor, start: Progress, options: BatchOptions)
    ensures MacroFold(exec, start, [], options) == MacroRun(start, map[], [], None)
  {
  }

  lemma {:induction false} CoherentAnyState(p: Progress, state: ExecState, undo: UndoPolicy, readonly: bool,
        fixedSize: bool)
    requires Coherent(p, undo, readonly, fixedSize)
    ensures Coherent(p.(state := state), undo, readonly, fixedSize)
  {
    hide Chained, Undoable, OpsOf;
  }

  lemma {:induction false} FailKeeps(p: Progress, error: string, onError: ErrorPolicy)
    ensures
      var q := Fail(p, error, onError);
      q.report.error.Some? && q.initial == p.initial && q.groupStart == p.groupStart && q.base == p.base
  {
    hide UndoOps;
  }
}
