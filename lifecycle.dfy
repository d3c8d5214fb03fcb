/** The child-operation lifecycle tracker of an inner context. A child is
    registered as executing when it enters the dependence queue, then moves
    to executed, then to complete, and leaves when it commits (or when it is
    unregistered). The context reports "children complete" to its owner task
    once the task body has finished and no child is executing or executed, and
    "children committed" once, in addition, no child is complete. */
module Lifecycle {
  import opened LegionTypes

  /** The three child sets and the three flags. */
  datatype Children = Children(
    executing: set<OpId>, executed: set<OpId>, complete: set<OpId>,
    taskExecuted: bool, completeInvoked: bool, commitInvoked: bool)

  /** A fresh context: no children, task still running, nothing reported. */
  function Initial(): (r: Children)
    ensures r.executing == {} && r.executed == {} && r.complete == {}
    ensures !r.taskExecuted && !r.completeInvoked && !r.commitInvoked
  {
    Children({}, {}, {}, false, false, false)
  }

  /** A child is in at most one of the three sets. */
  predicate Disjoint(c: Children)
  {
    c.executing !! c.executed && c.executing !! c.complete && c.executed !! c.complete
  }

  predicate Tracked(c: Children, op: OpId)
  {
    op in c.executing || op in c.executed || op in c.complete
  }

  /** The new sets and whether to report children complete / committed. */
  datatype Step = Step(next: Children, triggerComplete: bool, triggerCommit: bool)

  /** Entering the dependence queue (for an operation that tracks its parent). */
  function AddChild(c: Children, op: OpId): (r: Children)
    requires !Tracked(c, op)
    ensures r == c.(executing := c.executing + {op})
  {
    c.(executing := c.executing + {op})
  }

  /** A child finished executing. */
  function ChildExecuted(c: Children, op: OpId): (r: Children)
    requires op in c.executing && op !in c.executed && op !in c.complete
    ensures r == c.(executing := c.executing - {op}, executed := c.executed + {op})
  {
    c.(executing := c.executing - {op}, executed := c.executed + {op})
  }

  /** A child completed: reports children complete when the task body is done
      and this was the last executing or executed child. */
  function ChildComplete(c: Children, op: OpId): (r: Step)
    requires op in c.executed && op !in c.complete && op !in c.executing
    ensures r.next.executing == c.executing && r.next.executed == c.executed - {op}
    ensures r.next.complete == c.complete + {op} && r.next.taskExecuted == c.taskExecuted
    ensures r.triggerComplete <==> c.taskExecuted && c.executing == {} && c.executed == {op} && !c.completeInvoked
    ensures r.next.completeInvoked == (c.completeInvoked || r.triggerComplete)
    ensures r.next.commitInvoked == c.commitInvoked && !r.triggerCommit
  {
    var next := c.(executed := c.executed - {op}, complete := c.complete + {op});
    var trigger := c.taskExecuted && next.executing == {} && next.executed == {} && !c.completeInvoked;
    Step(next.(completeInvoked := c.completeInvoked || trigger), trigger, false)
  }

  /** A child committed, with the test as it is written: it reports children
      committed when no child remains, whether or not the task body is done. */
  function ChildCommitAsWritten(c: Children, op: OpId): (r: Step)
    requires op in c.complete && op !in c.executing && op !in c.executed
    ensures r.next.executing == c.executing && r.next.executed == c.executed
    ensures r.next.complete == c.complete - {op} && r.next.taskExecuted == c.taskExecuted
    ensures r.triggerCommit <==> c.executing == {} && c.executed == {} && c.complete == {op} && !c.commitInvoked
    ensures r.next.commitInvoked == (c.commitInvoked || r.triggerCommit)
    ensures r.next.completeInvoked == c.completeInvoked && !r.triggerComplete
  {
    var next := c.(complete := c.complete - {op});
    var trigger := next.executing == {} && next.executed == {} && next.complete == {} && !c.commitInvoked;
    Step(next.(commitInvoked := c.commitInvoked || trigger), false, trigger)
  }

  /** A child committed, with the test the other reporting paths use: the
      task body must also be done. */
  function ChildCommit(c: Children, op: OpId): (r: Step)
    requires op in c.complete && op !in c.executing && op !in c.executed
    ensures r.next.executing == c.executing && r.next.executed == c.executed
    ensures r.next.complete == c.complete - {op} && r.next.taskExecuted == c.taskExecuted
    ensures r.triggerCommit <==> c.taskExecuted && c.executing == {} && c.executed == {} &&
                                 c.complete == {op} && !c.commitInvoked
    ensures r.next.commitInvoked == (c.commitInvoked || r.triggerCommit)
    ensures r.next.completeInvoked == c.completeInvoked && !r.triggerComplete
  {
    var next := c.(complete := c.complete - {op});
    var trigger := c.taskExecuted && next.executing == {} && next.executed == {} && next.complete == {} &&
                   !c.commitInvoked;
    Step(next.(commitInvoked := c.commitInvoked || trigger), false, trigger)
  }

  /** Unregistering removes a child from every set and reports nothing. */
  function Unregister(c: Children, op: OpId): (r: Children)
    ensures !Tracked(r, op)
    ensures r.executing == c.executing - {op} && r.executed == c.executed - {op} && r.complete == c.complete - {op}
    ensures r.taskExecuted == c.taskExecuted && r.completeInvoked == c.completeInvoked &&
            r.commitInvoked == c.commitInvoked
  {
    c.(executing := c.executing - {op}, executed := c.executed - {op}, complete := c.complete - {op})
  }

  /** The state part of ending the task body: marks the task executed and
      reports whatever is already due. */
  function EndTask(c: Children): (r: Step)
    requires !c.taskExecuted
    ensures r.next.taskExecuted
    ensures r.next.executing == c.executing && r.next.executed == c.executed && r.next.complete == c.complete
    ensures r.triggerComplete <==> c.executing == {} && c.executed == {} && !c.completeInvoked
    ensures r.triggerCommit <==> c.executing == {} && c.executed == {} && c.complete == {} && !c.commitInvoked
  {
    var idle := c.executing == {} && c.executed == {};
    var complete := idle && !c.completeInvoked;
    var commit := idle && c.complete == {} && !c.commitInvoked;
    Step(c.(taskExecuted := true, completeInvoked := c.completeInvoked || complete,
            commitInvoked := c.commitInvoked || commit), complete, commit)
  }

  /** Asking whether children complete may be reported now (inner context). */
  function AttemptComplete(c: Children): (r: Step)
    ensures r.triggerComplete <==> c.taskExecuted && c.executing == {} && c.executed == {} && !c.completeInvoked
    ensures r.next == c.(completeInvoked := c.completeInvoked || r.triggerComplete) && !r.triggerCommit
  {
    var t := c.taskExecuted && c.executing == {} && c.executed == {} && !c.completeInvoked;
    Step(c.(completeInvoked := c.completeInvoked || t), t, false)
  }

  /** Asking whether children committed may be reported now (inner context). */
  function AttemptCommit(c: Children): (r: Step)
    ensures r.triggerCommit <==> c.taskExecuted && c.executing == {} && c.executed == {} && c.complete == {} &&
                                 !c.commitInvoked
    ensures r.next == c.(commitInvoked := c.commitInvoked || r.triggerCommit) && !r.triggerComplete
  {
    var t := c.taskExecuted && c.executing == {} && c.executed == {} && c.complete == {} && !c.commitInvoked;
    Step(c.(commitInvoked := c.commitInvoked || t), false, t)
  }

  /** The leaf context has no children: the first attempt of each kind succeeds. */
  function LeafAttempt(invoked: bool): (r: (bool, bool))
    ensures r.0 <==> !invoked
    ensures r.1
  {
    (!invoked, true)
  }

  // ---------------------------------------------------------------------
  // Traces

  /** The events the tracker sees. */
  datatype Event =
    | Add(op: OpId)
    | Exec(op: OpId)
    | Comp(op: OpId)
    | Commit(op: OpId)
    | Unreg(op: OpId)
    | End
    | TryComplete
    | TryCommit

  /** The precondition the runtime guarantees for each event. */
  predicate Enabled(c: Children, e: Event)
  {
    match e
    case Add(op) => !Tracked(c, op)
    case Exec(op) => op in c.executing && op !in c.executed && op !in c.complete
    case Comp(op) => op in c.executed && op !in c.complete && op !in c.executing
    case Commit(op) => op in c.complete && op !in c.executing && op !in c.executed
    case Unreg(_) => true
    case End => !c.taskExecuted
    case TryComplete => true
    case TryCommit => true
  }

  function Apply(c: Children, e: Event): Step
    requires Enabled(c, e)
  {
    match e
    case Add(op) => Step(AddChild(c, op), false, false)
    case Exec(op) => Step(ChildExecuted(c, op), false, false)
    case Comp(op) => ChildComplete(c, op)
    case Commit(op) => ChildCommit(c, op)
    case Unreg(op) => Step(Unregister(c, op), false, false)
    case End => EndTask(c)
    case TryComplete => AttemptComplete(c)
    case TryCommit => AttemptCommit(c)
  }

  /** Outcome of a run: the final sets and how often each report was made. */
  datatype Run = Run(last: Children, completes: nat, commits: nat)

  /** Running a sequence of events; None when some event is not enabled. */
  function RunEvents(c: Children, es: seq<Event>): Option<Run>
    decreases |es|
  {
    if es == [] then Some(Run(c, 0, 0))
    else if !Enabled(c, es[0]) then None
    else
      var s := Apply(c, es[0]);
      match RunEvents(s.next, es[1..])
      case None => None
      case Some(rest) =>
        Some(Run(rest.last, rest.completes + (if s.triggerComplete then 1 else 0),
                 rest.commits + (if s.triggerCommit then 1 else 0)))
  }

  /** Every report sets its flag, which was clear, and no step clears a flag. */
  lemma StepFlags(c: Children, e: Event)
    requires Enabled(c, e)
    ensures var s := Apply(c, e);
            (s.triggerComplete ==> !c.completeInvoked && s.next.completeInvoked) &&
            (s.triggerCommit ==> !c.commitInvoked && s.next.commitInvoked) &&
            (s.next.completeInvoked <==> c.completeInvoked || s.triggerComplete) &&
            (s.next.commitInvoked <==> c.commitInvoked || s.triggerCommit)
  {
  }

  /** A report is made only when it is due: children complete once the task
      body is done and nothing is executing or executed; children committed
      once, in addition, nothing is complete. */
  lemma StepTriggersSound(c: Children, e: Event)
    requires Enabled(c, e)
    ensures var s := Apply(c, e);
            (s.triggerComplete ==> s.next.taskExecuted && s.next.executing == {} && s.next.executed == {}) &&
            (s.triggerCommit ==> s.next.taskExecuted && s.next.executing == {} && s.next.executed == {} &&
                                 s.next.complete == {})
  {
  }

  /** Every step keeps a child in at most one of the three sets. */
  lemma StepKeepsDisjoint(c: Children, e: Event)
    requires Enabled(c, e) && Disjoint(c)
    ensures Disjoint(Apply(c, e).next)
  {
  }

  /** The stage of a child: 0 untracked, 1 executing, 2 executed, 3 complete. */
  function StageOf(c: Children, op: OpId): nat
  {
    if op in c.executing then 1 else if op in c.executed then 2 else if op in c.complete then 3 else 0
  }

  /** A child only moves forward (executing, executed, complete, removed) or
      is removed by unregistering; no event moves any other child. */
  lemma StepStages(c: Children, e: Event, x: OpId)
    requires Enabled(c, e) && Disjoint(c)
    ensures var n := Apply(c, e).next;
            match e
            case Add(op) => StageOf(n, x) == (if x == op then 1 else StageOf(c, x))
            case Exec(op) => StageOf(n, x) == (if x == op then 2 else StageOf(c, x))
            case Comp(op) => StageOf(n, x) == (if x == op then 3 else StageOf(c, x))
            case Commit(op) => StageOf(n, x) == (if x == op then 0 else StageOf(c, x))
            case Unreg(op) => StageOf(n, x) == (if x == op then 0 else StageOf(c, x))
            case _ => StageOf(n, x) == StageOf(c, x)
  {
  }

  /** Over any run, each report is made at most once, and never again after
      its flag is set. */
  lemma {:induction false} RunReportsAtMostOnce(c: Children, es: seq<Event>)
    requires RunEvents(c, es).Some?
    ensures var r := RunEvents(c, es).value;
            r.completes <= 1 && r.commits <= 1 &&
            (c.completeInvoked ==> r.completes == 0) && (c.commitInvoked ==> r.commits == 0) &&
            (r.last.completeInvoked <==> c.completeInvoked || r.completes == 1) &&
            (r.last.commitInvoked <==> c.commitInvoked || r.commits == 1)
    decreases |es|
  {
    if es != [] {
      var s := Apply(c, es[0]);
      StepFlags(c, es[0]);
      RunReportsAtMostOnce(s.next, es[1..]);
    }
  }

  /** From a fresh context, each report is made at most once. */
  lemma FreshRunReportsAtMostOnce(es: seq<Event>)
    requires RunEvents(Initial(), es).Some?
    ensures RunEvents(Initial(), es).value.completes <= 1
    ensures RunEvents(Initial(), es).value.commits <= 1
  {
    RunReportsAtMostOnce(Initial(), es);
  }

  /** A due report has been made: once the task body is done and the
      relevant sets are empty, the corresponding flag is set. */
  predicate Settled(c: Children)
  {
    (c.taskExecuted && c.executing == {} && c.executed == {} ==> c.completeInvoked) &&
    (c.taskExecuted && c.executing == {} && c.executed == {} && c.complete == {} ==> c.commitInvoked)
  }

  /** Every event except unregistering keeps reports up to date. */
  lemma StepKeepsSettled(c: Children, e: Event)
    requires Enabled(c, e) && Settled(c) && !e.Unreg?
    ensures Settled(Apply(c, e).next)
  {
  }

  /** In a run without unregistrations from a settled state, both reports
      are made by the time the task body is done and every child committed. */
  lemma {:induction false} RunReportsWhenDue(c: Children, es: seq<Event>)
    requires Settled(c) && RunEvents(c, es).Some?
    requires forall i :: 0 <= i < |es| ==> !es[i].Unreg?
    ensures Settled(RunEvents(c, es).value.last)
    decreases |es|
  {
    if es != [] {
      StepKeepsSettled(c, es[0]);
      assert forall i :: 0 <= i < |es[1..]| ==> es[1..][i] == es[i + 1];
      RunReportsWhenDue(Apply(c, es[0]).next, es[1..]);
    }
  }

  /** The same from a fresh context, which is settled because its task body
      has not finished. */
  lemma FreshRunReportsWhenDue(es: seq<Event>)
    requires RunEvents(Initial(), es).Some?
    requires forall i :: 0 <= i < |es| ==> !es[i].Unreg?
    ensures Settled(RunEvents(Initial(), es).value.last)
  {
    RunReportsWhenDue(Initial(), es);
  }

  // ---------------------------------------------------------------------
  // The commit test as written

  /** As written, the last child to commit reports children committed while
      the task body is still running; afterwards ending the task no longer
      reports it. */
  lemma CommitAsWrittenBeforeTaskExecuted()
    ensures var c := Initial().(complete := {7});
            var s := ChildCommitAsWritten(c, 7);
            s.triggerCommit && !s.next.taskExecuted && !EndTask(s.next).triggerCommit
  {
  }

  /** With the corrected test, a commit report always follows the end of the
      task body. */
  lemma CommitReportsOnlyAfterTaskExecuted(c: Children, op: OpId)
    requires op in c.complete && op !in c.executing && op !in c.executed
    ensures ChildCommit(c, op).triggerCommit ==> c.taskExecuted
    ensures !c.taskExecuted ==> ChildCommit(c, op).next == c.(complete := c.complete - {op})
  {
  }
}
