/** Flow control of an inner context: the configuration the mapper supplies,
    the window that throttles how many children may be outstanding, the
    queue of frame markers that throttles how many frames may be pending,
    and the activation gate that tells the scheduler when the context is
    starved of work. Waits become results that tell the caller which event
    it must wait on; fresh events are supplied by the caller. */
module FlowControl {
  import opened LegionTypes

  // ---------------------------------------------------------------------
  // Configuration

  datatype ContextConfig = ContextConfig(
    maxWindowSize: nat, hysteresisPercentage: nat, maxOutstandingFrames: nat,
    minTasksToSchedule: nat, minFramesToSchedule: nat)

  datatype ConfigResult = ConfigError(err: LegionError) | Configured(config: ContextConfig)

  /** Exactly one scheduling discipline is selected. */
  predicate OneDiscipline(c: ContextConfig)
  {
    (c.minTasksToSchedule == 0) != (c.minFramesToSchedule == 0)
  }

  /** Validating the mapper's configuration: both minima zero is an error;
      counting by frames, when selected, overrides counting by tasks. */
  function Configure(mapperOutput: ContextConfig): (r: ConfigResult)
    ensures r.ConfigError? <==> mapperOutput.minTasksToSchedule == 0 && mapperOutput.minFramesToSchedule == 0
    ensures r.ConfigError? ==> r.err == InvalidContextConfiguration
    ensures r.Configured? ==> OneDiscipline(r.config)
    ensures r.Configured? ==> r.config.minFramesToSchedule == mapperOutput.minFramesToSchedule
    ensures r.Configured? && mapperOutput.minFramesToSchedule > 0 ==> r.config.minTasksToSchedule == 0
    ensures r.Configured? && mapperOutput.minFramesToSchedule == 0 ==> r.config == mapperOutput
    ensures r.Configured? ==>
              r.config.maxWindowSize == mapperOutput.maxWindowSize &&
              r.config.hysteresisPercentage == mapperOutput.hysteresisPercentage &&
              r.config.maxOutstandingFrames == mapperOutput.maxOutstandingFrames
  {
    if mapperOutput.minTasksToSchedule == 0 && mapperOutput.minFramesToSchedule == 0 then
      ConfigError(InvalidContextConfiguration)
    else if mapperOutput.minFramesToSchedule > 0 then
      Configured(mapperOutput.(minTasksToSchedule := 0))
    else Configured(mapperOutput)
  }

  /** Validating an accepted configuration again changes nothing. */
  lemma ConfigureIdempotent(mapperOutput: ContextConfig)
    requires Configure(mapperOutput).Configured?
    ensures Configure(Configure(mapperOutput).config) == Configure(mapperOutput)
  {
  }

  // ---------------------------------------------------------------------
  // Window

  /** The outstanding-children count and the wait event of a blocked registrant. */
  datatype Window = Window(count: nat, validWait: bool, waitEvent: EventId)

  /** The window throttles registrations only when not counting by frames. */
  predicate WindowActive(c: ContextConfig)
  {
    c.minFramesToSchedule == 0 && c.maxWindowSize > 0
  }

  /** The low-water mark, in integer division. */
  function LowWater(c: ContextConfig): (r: nat)
    ensures r * 100 <= c.hysteresisPercentage * c.maxWindowSize < (r + 1) * 100
    ensures c.hysteresisPercentage <= 100 ==> r <= c.maxWindowSize
  {
    c.hysteresisPercentage * c.maxWindowSize / 100
  }

  datatype Registration = Registration(window: Window, waitOn: Option<EventId>)

  /** Registering a child: the count goes up; when the window is active and
      the count reaches the window size the registrant waits on a new event
      (no other registrant may be waiting then). */
  function RegisterChild(c: ContextConfig, w: Window, newEvent: EventId): (r: Registration)
    requires WindowActive(c) && w.count + 1 >= c.maxWindowSize ==> !w.validWait
    ensures r.window.count == w.count + 1
    ensures r.waitOn.Some? <==> WindowActive(c) && w.count + 1 >= c.maxWindowSize
    ensures r.waitOn.Some? ==> r.window.validWait && r.waitOn.value == newEvent && r.window.waitEvent == newEvent
    ensures r.waitOn.None? ==> r.window == w.(count := w.count + 1)
  {
    var n := w.count + 1;
    if WindowActive(c) && n >= c.maxWindowSize then
      Registration(Window(n, true, newEvent), Some(newEvent))
    else Registration(w.(count := n), None)
  }

  datatype Release = Release(window: Window, toTrigger: Option<EventId>)

  /** A child leaves the window (it finished executing, or was unregistered):
      the count goes down and a blocked registrant is released once the count
      is at most the low-water mark. */
  function ChildLeaves(c: ContextConfig, w: Window): (r: Release)
    requires w.count > 0
    ensures r.window.count == w.count - 1
    ensures r.toTrigger.Some? <==> w.validWait && c.maxWindowSize > 0 && w.count - 1 <= LowWater(c)
    ensures r.toTrigger.Some? ==> r.toTrigger.value == w.waitEvent && !r.window.validWait
    ensures r.toTrigger.None? ==> r.window.validWait == w.validWait
    ensures r.window.waitEvent == w.waitEvent
  {
    var n := w.count - 1;
    if w.validWait && c.maxWindowSize > 0 && n <= LowWater(c) then
      Release(Window(n, false, w.waitEvent), Some(w.waitEvent))
    else Release(w.(count := n), None)
  }

  /** With the window active, the count never exceeds the window size, and it
      is below it whenever no registrant is blocked. */
  predicate WindowBound(c: ContextConfig, w: Window)
  {
    WindowActive(c) ==> w.count <= c.maxWindowSize && (!w.validWait ==> w.count < c.maxWindowSize)
  }

  /** Registrations (a blocking one made only while no registrant is
      blocked) and departures keep the bound. */
  lemma WindowSteps(c: ContextConfig, w: Window, newEvent: EventId)
    requires WindowBound(c, w)
    ensures (WindowActive(c) && w.count + 1 >= c.maxWindowSize ==> !w.validWait) ==>
              WindowBound(c, RegisterChild(c, w, newEvent).window)
    ensures w.count > 0 ==> WindowBound(c, ChildLeaves(c, w).window)
  {
  }

  /** The window starting at zero. */
  function EmptyWindow(): (r: Window)
    ensures r.count == 0 && !r.validWait
  {
    Window(0, false, 0)
  }

  /** Window size 4, low water 50%: the fourth registrant waits, and it is
      released by the second departure, which brings the count to 2. */
  lemma WindowScenario()
    ensures var c := ContextConfig(4, 50, 0, 1, 0);
            var r1 := RegisterChild(c, EmptyWindow(), 1);
            var r2 := RegisterChild(c, r1.window, 2);
            var r3 := RegisterChild(c, r2.window, 3);
            var r4 := RegisterChild(c, r3.window, 4);
            var d1 := ChildLeaves(c, r4.window);
            var d2 := ChildLeaves(c, d1.window);
            r1.waitOn.None? && r2.waitOn.None? && r3.waitOn.None? && r4.waitOn == Some(4) &&
            d1.toTrigger.None? && d2.toTrigger == Some(4) && d2.window.count == 2
  {
  }

  // ---------------------------------------------------------------------
  // Frames

  datatype FrameIssue = FrameIssue(queue: seq<EventId>, waitOn: Option<EventId>, previous: Option<EventId>)

  /** Issuing a frame: remembers the previous frame's marker, waits on the
      marker `maxOutstanding` places from the end when more than that many
      are queued, and appends the new marker. */
  function IssueFrame(maxOutstanding: nat, q: seq<EventId>, marker: EventId): (r: FrameIssue)
    requires maxOutstanding > 0
    ensures r.queue == q + [marker]
    ensures r.previous.Some? <==> q != []
    ensures r.previous.Some? ==> r.previous.value == q[|q| - 1]
    ensures r.waitOn.Some? <==> |q| > maxOutstanding
    ensures r.waitOn.Some? ==> r.waitOn.value == q[|q| - maxOutstanding]
  {
    FrameIssue(q + [marker],
               if |q| > maxOutstanding then Some(q[|q| - maxOutstanding]) else None,
               if q != [] then Some(q[|q| - 1]) else None)
  }

  /** Once the awaited marker and every earlier one have finished, the queue
      holds exactly `maxOutstanding` markers ending with the new one (and the
      awaited marker is not among them when `maxOutstanding` is positive). */
  lemma IssueWaitBounds(maxOutstanding: nat, q: seq<EventId>, marker: EventId)
    requires maxOutstanding > 0 && |q| > maxOutstanding
    ensures var r := IssueFrame(maxOutstanding, q, marker);
            var k := |q| - maxOutstanding;
            r.queue[k] == r.waitOn.value &&
            |r.queue[k + 1..]| == maxOutstanding && r.queue[|r.queue| - 1] == marker
  {
  }

  datatype Finish = FrameMismatch | Finished(queue: seq<EventId>)

  /** Finishing a frame pops the queue head, which must be that frame; when
      frames are not throttled the queue is not kept. */
  function FinishFrame(maxOutstanding: nat, q: seq<EventId>, marker: EventId): (r: Finish)
    ensures maxOutstanding == 0 ==> r == Finished(q)
    ensures maxOutstanding > 0 ==> (r.Finished? <==> q != [] && q[0] == marker)
    ensures maxOutstanding > 0 && r.Finished? ==> [marker] + r.queue == q
  {
    if maxOutstanding == 0 then Finished(q)
    else if q != [] && q[0] == marker then Finished(q[1..])
    else FrameMismatch
  }

  datatype FrameEvent = Issue(marker: EventId) | Done(marker: EventId)

  /** Running frame events from a queue: the markers issued and finished, or
      None when a finish does not match the queue head. */
  function RunFrames(maxOutstanding: nat, q: seq<EventId>, es: seq<FrameEvent>): Option<seq<EventId>>
    requires maxOutstanding > 0
    decreases |es|
  {
    if es == [] then Some(q)
    else match es[0]
      case Issue(m) => RunFrames(maxOutstanding, IssueFrame(maxOutstanding, q, m).queue, es[1..])
      case Done(m) =>
        match FinishFrame(maxOutstanding, q, m)
        case FrameMismatch => None
        case Finished(q') => RunFrames(maxOutstanding, q', es[1..])
  }

  function Issued(es: seq<FrameEvent>): seq<EventId>
    decreases |es|
  {
    if es == [] then [] else (if es[0].Issue? then [es[0].marker] else []) + Issued(es[1..])
  }

  function Completed(es: seq<FrameEvent>): seq<EventId>
    decreases |es|
  {
    if es == [] then [] else (if es[0].Done? then [es[0].marker] else []) + Completed(es[1..])
  }

  /** Issued and Completed of a run, after its first event. */
  lemma IssuedCompletedStep(es: seq<FrameEvent>)
    requires es != []
    ensures es[0].Issue? ==> Issued(es) == [es[0].marker] + Issued(es[1..]) && Completed(es) == Completed(es[1..])
    ensures es[0].Done? ==> Completed(es) == [es[0].marker] + Completed(es[1..]) && Issued(es) == Issued(es[1..])
  {
  }

  /** Completion order equals issue order: over any run that does not fail,
      the queue before the run followed by the markers issued equals the
      markers finished followed by the queue after the run. */
  lemma {:induction false} FramesFifo(maxOutstanding: nat, q: seq<EventId>, es: seq<FrameEvent>)
    requires maxOutstanding > 0
    requires RunFrames(maxOutstanding, q, es).Some?
    ensures q + Issued(es) == Completed(es) + RunFrames(maxOutstanding, q, es).value
    decreases |es|
  {
    if es != [] {
      IssuedCompletedStep(es);
      var m := es[0].marker;
      var q' := if es[0].Issue? then q + [m] else q[1..];
      assert es[0].Done? ==> q == [m] + q';
      assert RunFrames(maxOutstanding, q, es) == RunFrames(maxOutstanding, q', es[1..]);
      FramesFifo(maxOutstanding, q', es[1..]);
      var rest := RunFrames(maxOutstanding, q', es[1..]).value;
      if es[0].Issue? {
        Associative(q, [m], Issued(es[1..]));
      } else {
        calc {
          q + Issued(es);
          ([m] + q') + Issued(es[1..]);
          { Associative([m], q', Issued(es[1..])); }
          [m] + (Completed(es[1..]) + rest);
          { Associative([m], Completed(es[1..]), rest); }
          Completed(es) + rest;
        }
      }
    }
  }

  lemma Associative<T>(a: seq<T>, b: seq<T>, c: seq<T>)
    ensures (a + b) + c == a + (b + c)
  {
  }

  /** From an empty queue, the finished markers are a prefix of the issued ones. */
  lemma FramesCompleteInIssueOrder(maxOutstanding: nat, es: seq<FrameEvent>)
    requires maxOutstanding > 0
    requires RunFrames(maxOutstanding, [], es).Some?
    ensures Completed(es) <= Issued(es)
  {
    FramesFifo(maxOutstanding, [], es);
    assert [] + Issued(es) == Issued(es);
  }

  // ---------------------------------------------------------------------
  // Activation gate

  /** The gate's counters, whether the context is active, and the event the
      last transition triggers (each transition waits for the previous one). */
  datatype Gate = Gate(active: bool, outstanding: nat, pendingTasks: nat, pendingFrames: nat,
                       orderEvent: EventId)

  /** One activation or deactivation: the event it waits on, the event it
      triggers, and which way it goes. */
  datatype Transition = Transition(waitOn: EventId, trigger: EventId, activate: bool)

  datatype GateStep = GateStep(gate: Gate, transition: Option<Transition>)

  /** Whether the context has too little queued work under its discipline. */
  predicate Starved(c: ContextConfig, g: Gate)
  {
    (c.minTasksToSchedule > 0 && g.pendingTasks < c.minTasksToSchedule) ||
    (c.minFramesToSchedule > 0 && g.pendingFrames < c.minFramesToSchedule)
  }

  /** A transition chained after the previous one through the order event. */
  function Flip(g: Gate, newEvent: EventId, activate: bool): (r: GateStep)
    ensures r.gate == g.(active := activate, orderEvent := newEvent)
    ensures r.transition == Some(Transition(g.orderEvent, newEvent, activate))
  {
    GateStep(g.(active := activate, orderEvent := newEvent), Some(Transition(g.orderEvent, newEvent, activate)))
  }

  function NoFlip(g: Gate): GateStep
  {
    GateStep(g, None)
  }

  /** A subtask became outstanding: activates an inactive starved context
      that had none. */
  function IncrementOutstanding(c: ContextConfig, g: Gate, newEvent: EventId): (r: GateStep)
    requires OneDiscipline(c)
    ensures r.gate.outstanding == g.outstanding + 1
    ensures r.transition.Some? <==> !g.active && g.outstanding == 0 && Starved(c, g)
  {
    var g' := g.(outstanding := g.outstanding + 1);
    if !g.active && g.outstanding == 0 && Starved(c, g) then Flip(g', newEvent, true) else NoFlip(g')
  }

  /** A subtask stopped being outstanding: deactivates an active starved
      context that has none left. */
  function DecrementOutstanding(c: ContextConfig, g: Gate, newEvent: EventId): (r: GateStep)
    requires OneDiscipline(c)
    requires g.outstanding > 0
    ensures r.gate.outstanding == g.outstanding - 1
    ensures r.transition.Some? <==> g.active && g.outstanding == 1 && Starved(c, g)
  {
    var g' := g.(outstanding := g.outstanding - 1);
    if g.active && g'.outstanding == 0 && Starved(c, g') then Flip(g', newEvent, false) else NoFlip(g')
  }

  /** A subtask became pending (only when counting by tasks): deactivates
      when the pending count reaches the minimum. */
  function IncrementPending(c: ContextConfig, g: Gate, newEvent: EventId): (r: GateStep)
    ensures c.minTasksToSchedule == 0 ==> r == NoFlip(g)
    ensures c.minTasksToSchedule > 0 ==> r.gate.pendingTasks == g.pendingTasks + 1
    ensures r.transition.Some? <==> c.minTasksToSchedule > 0 && g.active && g.outstanding > 0 &&
                                    g.pendingTasks + 1 == c.minTasksToSchedule
  {
    if c.minTasksToSchedule == 0 then NoFlip(g)
    else
      var g' := g.(pendingTasks := g.pendingTasks + 1);
      if g.active && g.outstanding > 0 && g'.pendingTasks == c.minTasksToSchedule then Flip(g', newEvent, false)
      else NoFlip(g')
  }

  /** A pending subtask was dispatched (only when counting by tasks):
      activates an inactive context once below the minimum. */
  function DecrementPending(c: ContextConfig, g: Gate, newEvent: EventId): (r: GateStep)
    requires c.minTasksToSchedule > 0 ==> g.pendingTasks > 0
    ensures c.minTasksToSchedule == 0 ==> r == NoFlip(g)
    ensures c.minTasksToSchedule > 0 ==> r.gate.pendingTasks == g.pendingTasks - 1
    ensures r.transition.Some? <==> c.minTasksToSchedule > 0 && !g.active && g.outstanding > 0 &&
                                    g.pendingTasks - 1 < c.minTasksToSchedule
  {
    if c.minTasksToSchedule == 0 then NoFlip(g)
    else
      var g' := g.(pendingTasks := g.pendingTasks - 1);
      if !g.active && g.outstanding > 0 && g'.pendingTasks < c.minTasksToSchedule then Flip(g', newEvent, true)
      else NoFlip(g')
  }

  /** A frame became pending (only when counting by frames). */
  function IncrementFrame(c: ContextConfig, g: Gate, newEvent: EventId): (r: GateStep)
    ensures c.minFramesToSchedule == 0 ==> r == NoFlip(g)
    ensures c.minFramesToSchedule > 0 ==> r.gate.pendingFrames == g.pendingFrames + 1
    ensures r.transition.Some? <==> c.minFramesToSchedule > 0 && g.active && g.outstanding > 0 &&
                                    g.pendingFrames + 1 == c.minFramesToSchedule
  {
    if c.minFramesToSchedule == 0 then NoFlip(g)
    else
      var g' := g.(pendingFrames := g.pendingFrames + 1);
      if g.active && g.outstanding > 0 && g'.pendingFrames == c.minFramesToSchedule then Flip(g', newEvent, false)
      else NoFlip(g')
  }

  /** A pending frame was mapped (only when counting by frames). */
  function DecrementFrame(c: ContextConfig, g: Gate, newEvent: EventId): (r: GateStep)
    requires c.minFramesToSchedule > 0 ==> g.pendingFrames > 0
    ensures c.minFramesToSchedule == 0 ==> r == NoFlip(g)
    ensures c.minFramesToSchedule > 0 ==> r.gate.pendingFrames == g.pendingFrames - 1
    ensures r.transition.Some? <==> c.minFramesToSchedule > 0 && !g.active && g.outstanding > 0 &&
                                    g.pendingFrames - 1 < c.minFramesToSchedule
  {
    if c.minFramesToSchedule == 0 then NoFlip(g)
    else
      var g' := g.(pendingFrames := g.pendingFrames - 1);
      if !g.active && g.outstanding > 0 && g'.pendingFrames < c.minFramesToSchedule then Flip(g', newEvent, true)
      else NoFlip(g')
  }

  /** The gate's invariant: the context is active exactly when it has
      outstanding subtasks and is starved of queued work. */
  predicate GateInv(c: ContextConfig, g: Gate)
  {
    g.active <==> g.outstanding > 0 && Starved(c, g)
  }

  datatype GateEvent =
    | IncOutstanding(newEvent: EventId)
    | DecOutstanding(newEvent: EventId)
    | IncPending(newEvent: EventId)
    | DecPending(newEvent: EventId)
    | IncFrame(newEvent: EventId)
    | DecFrame(newEvent: EventId)

  predicate GateEnabled(c: ContextConfig, g: Gate, e: GateEvent)
  {
    match e
    case DecOutstanding(_) => g.outstanding > 0
    case DecPending(_) => c.minTasksToSchedule > 0 ==> g.pendingTasks > 0
    case DecFrame(_) => c.minFramesToSchedule > 0 ==> g.pendingFrames > 0
    case _ => true
  }

  function GateApply(c: ContextConfig, g: Gate, e: GateEvent): GateStep
    requires OneDiscipline(c) && GateEnabled(c, g, e)
  {
    match e
    case IncOutstanding(f) => IncrementOutstanding(c, g, f)
    case DecOutstanding(f) => DecrementOutstanding(c, g, f)
    case IncPending(f) => IncrementPending(c, g, f)
    case DecPending(f) => DecrementPending(c, g, f)
    case IncFrame(f) => IncrementFrame(c, g, f)
    case DecFrame(f) => DecrementFrame(c, g, f)
  }

  /** Every step keeps the invariant; a transition flips `active`, waits on
      the previous order event and installs its own trigger as the next one;
      a step without transition leaves `active` and the order event alone. */
  lemma GateStepFacts(c: ContextConfig, g: Gate, e: GateEvent)
    requires OneDiscipline(c) && GateEnabled(c, g, e) && GateInv(c, g)
    ensures var s := GateApply(c, g, e);
            GateInv(c, s.gate) &&
            (s.transition.Some? ==> s.transition.value.activate == !g.active &&
                                    s.gate.active == s.transition.value.activate &&
                                    s.transition.value.waitOn == g.orderEvent &&
                                    s.gate.orderEvent == s.transition.value.trigger) &&
            (s.transition.None? ==> s.gate.active == g.active && s.gate.orderEvent == g.orderEvent)
  {
  }

  /** The transitions made by a sequence of gate events, and the final gate. */
  function RunGate(c: ContextConfig, g: Gate, es: seq<GateEvent>): Option<(Gate, seq<Transition>)>
    requires OneDiscipline(c)
    decreases |es|
  {
    if es == [] then Some((g, []))
    else if !GateEnabled(c, g, es[0]) then None
    else
      var s := GateApply(c, g, es[0]);
      match RunGate(c, s.gate, es[1..])
      case None => None
      case Some(rest) =>
        Some((rest.0, (if s.transition.Some? then [s.transition.value] else []) + rest.1))
  }

  /** The transitions of a run form one chain: each waits on the event the
      previous one triggers (the first on the initial order event), they
      alternate between activation and deactivation, and the invariant holds
      at the end. */
  lemma {:induction false} GateRunChains(c: ContextConfig, g: Gate, es: seq<GateEvent>)
    requires OneDiscipline(c) && GateInv(c, g)
    requires RunGate(c, g, es).Some?
    ensures var (last, ts) := RunGate(c, g, es).value;
            GateInv(c, last) &&
            (ts == [] ==> last.active == g.active && last.orderEvent == g.orderEvent) &&
            (ts != [] ==> ts[0].waitOn == g.orderEvent && ts[0].activate == !g.active &&
                          last.orderEvent == ts[|ts| - 1].trigger && last.active == ts[|ts| - 1].activate) &&
            (forall i :: 0 < i < |ts| ==> ts[i].waitOn == ts[i - 1].trigger && ts[i].activate == !ts[i - 1].activate)
    decreases |es|
  {
    if es != [] {
      var s := GateApply(c, g, es[0]);
      GateStepFacts(c, g, es[0]);
      GateRunChains(c, s.gate, es[1..]);
      var rest := RunGate(c, s.gate, es[1..]).value;
      if s.transition.Some? {
        var ts := [s.transition.value] + rest.1;
        assert forall i :: 0 < i < |ts| ==> ts[i] == rest.1[i - 1];
      }
    }
  }
}
