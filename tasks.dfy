/**
 * Leaf tasks of the behaviour tree (ITasks.cs): the status type, the
 * default no-op Reset of the task interface, and the four task classes.
 *
 * Host callbacks are opaque. Every action call and every predicate query a
 * task makes is recorded as an Event in a ghost trace, and what a predicate
 * answers when it is asked during a tick is an input (Answers). The frame
 * time step is an input too (delta), as a real number.
 */
module Tasks {

  /** BT_Node.Status */
  datatype Status = Success | Running | Failure

  /** One call from a task into host code. */
  datatype Event =
    | ActionRan        // ActionTask.action
    | ConditionAsked   // Condition.condition
    | OneUseRan        // OneUseActionTask.oneUseAction
    | BackgroundRan    // backgroundAction of the timed and of the composite task
    | StartRan         // ActionTaskSuccessFailBackground.startAction
    | SuccessAsked     // ActionTaskSuccessFailBackground.successConditon
    | FailAsked        // ActionTaskSuccessFailBackground.failConditon
    | SuccessRan       // ActionTaskSuccessFailBackground.successAction
    | FailRan          // ActionTaskSuccessFailBackground.failAction

  /** What the host predicates answer if they are asked during one tick. */
  datatype Answers = Answers(holds: bool, succeeded: bool, failed: bool)

  /** The state a task keeps between calls; the callbacks themselves are not state. */
  datatype TaskState =
    | ActionState
    | ConditionState
    | OneUseState(duration: real, elapsed: real, used: bool)
    | CompositeState(started: bool)

  /** One GetStatus call: the status, the task's next state and the callbacks made, in order. */
  datatype Outcome = Outcome(status: Status, next: TaskState, events: seq<Event>)

  /** ActionTask.GetStatus: run the action, report success. */
  function ActionStep(): (r: Outcome)
    ensures r.status == Success && r.next == ActionState
    ensures multiset(r.events)[ActionRan] == 1 && |r.events| == 1
  {
    Outcome(Success, ActionState, [ActionRan])
  }

  /** Condition.GetStatus: ask the predicate once and report its answer. */
  function ConditionStep(holds: bool): (r: Outcome)
    ensures r.status != Running
    ensures r.status == Success <==> holds
    ensures r.events == [ConditionAsked] && r.next == ConditionState
  {
    Outcome(if holds then Success else Failure, ConditionState, [ConditionAsked])
  }

  /**
   * OneUseActionTask.GetStatus: accumulate the time step; once the total
   * exceeds the duration, rearm and report success without running either
   * action; otherwise run the one-use action if it has not run yet, then the
   * background action, and report running.
   */
  function OneUseStep(t: TaskState, delta: real): (r: Outcome)
    requires t.OneUseState?
    ensures r.status != Failure && r.next.OneUseState? && r.next.duration == t.duration
    ensures r.status == Success <==> t.elapsed + delta > t.duration
    ensures r.next.used <==> r.status == Running
  {
    var elapsed := t.elapsed + delta;
    if elapsed > t.duration then
      Outcome(Success, t.(elapsed := 0.0, used := false), [])
    else
      Outcome(Running, t.(elapsed := elapsed, used := true),
              (if t.used then [] else [OneUseRan]) + [BackgroundRan])
  }

  /**
   * ActionTaskSuccessFailBackground.GetStatus: run the start action once per
   * activation; then the success predicate decides, the fail predicate is
   * asked only when it does not hold, and both terminal paths report success.
   */
  function CompositeStep(t: TaskState, ans: Answers): (r: Outcome)
    requires t.CompositeState?
    ensures r.status != Failure && r.next.CompositeState?
    ensures r.status == Success <==> ans.succeeded || ans.failed
    ensures r.next.started <==> r.status == Running
  {
    var start := if t.started then [] else [StartRan];
    if ans.succeeded then
      Outcome(Success, CompositeState(false), start + [SuccessAsked, SuccessRan])
    else if ans.failed then
      Outcome(Success, CompositeState(false), start + [SuccessAsked, FailAsked, FailRan])
    else
      Outcome(Running, CompositeState(true), start + [SuccessAsked, FailAsked, BackgroundRan])
  }

  /** ITask.GetStatus, dispatched on the concrete task. */
  function TaskStep(t: TaskState, delta: real, ans: Answers): (r: Outcome)
    ensures SameTask(t, r.next)
    ensures r.status == Failure ==> t.ConditionState?
  {
    match t
    case ActionState => ActionStep()
    case ConditionState => ConditionStep(ans.holds)
    case OneUseState(_, _, _) => OneUseStep(t, delta)
    case CompositeState(_) => CompositeStep(t, ans)
  }

  /** ITask.Reset: the interface's default body is empty and no task overrides it. */
  function TaskReset(t: TaskState): (r: TaskState)
    ensures r == t
  {
    t
  }

  /** Same concrete task with the same fixed duration: what a call can never change. */
  predicate SameTask(a: TaskState, b: TaskState)
  {
    match a
    case ActionState => b.ActionState?
    case ConditionState => b.ConditionState?
    case OneUseState(d, _, _) => b.OneUseState? && b.duration == d
    case CompositeState(_) => b.CompositeState?
  }

  // ---------------------------------------------------------------------------
  // Properties of one call
  // ---------------------------------------------------------------------------

  /** The tick that takes the accumulated time past the duration rearms the task and runs nothing. */
  lemma OneUseCompletes(t: TaskState, delta: real)
    requires t.OneUseState?
    ensures var o := OneUseStep(t, delta);
      (o.status == Success <==> t.elapsed + delta > t.duration) &&
      (o.status == Success ==> o.next == OneUseState(t.duration, 0.0, false) && o.events == [])
  {
  }

  /**
   * Any other tick reports running with the elapsed time within the duration,
   * runs the one-use action exactly when it had not run, and always runs the
   * background action, last.
   */
  lemma OneUseRuns(t: TaskState, delta: real)
    requires t.OneUseState?
    requires t.elapsed + delta <= t.duration
    ensures var o := OneUseStep(t, delta);
      o.status == Running && o.next.elapsed == t.elapsed + delta <= t.duration && o.next.used &&
      o.events == (if t.used then [] else [OneUseRan]) + [BackgroundRan]
  {
  }

  /** The start action runs exactly when the task was not started. */
  lemma CompositeStarts(t: TaskState, ans: Answers)
    requires t.CompositeState?
    ensures var o := CompositeStep(t, ans);
      multiset(o.events)[StartRan] == (if t.started then 0 else 1) &&
      (StartRan in o.events ==> o.events[0] == StartRan)
  {
  }

  /**
   * The success predicate is asked first and the fail predicate only when
   * success does not hold; each terminal path runs its own action and clears
   * the started flag; otherwise the background action runs and the task stays
   * started. The task never reports failure.
   */
  lemma CompositeResolves(t: TaskState, ans: Answers)
    requires t.CompositeState?
    ensures var o := CompositeStep(t, ans);
      o.status != Failure &&
      SuccessAsked in o.events &&
      o.events[if t.started then 0 else 1] == SuccessAsked &&
      (FailAsked in o.events ==> o.events[if t.started then 1 else 2] == FailAsked) &&
      o.events[|o.events| - 1] == (if ans.succeeded then SuccessRan else if ans.failed then FailRan else BackgroundRan) &&
      (ans.succeeded ==> o.status == Success && !o.next.started && SuccessRan in o.events &&
                         FailAsked !in o.events && FailRan !in o.events && BackgroundRan !in o.events) &&
      (!ans.succeeded && ans.failed ==> o.status == Success && !o.next.started && FailAsked in o.events && FailRan in o.events &&
                                        SuccessRan !in o.events && BackgroundRan !in o.events) &&
      (!ans.succeeded && !ans.failed ==> o.status == Running && o.next.started && FailAsked in o.events && BackgroundRan in o.events &&
                                         SuccessRan !in o.events && FailRan !in o.events)
  {
  }

  // ---------------------------------------------------------------------------
  // Runs of successive ticks
  // ---------------------------------------------------------------------------

  /** What one tick supplies to a task. */
  datatype Input = Input(delta: real, answers: Answers)

  /** The statuses reported, the final state and all callbacks made over a run of ticks. */
  datatype History = History(statuses: seq<Status>, last: TaskState, events: seq<Event>)

  function TaskRun(t: TaskState, ins: seq<Input>): (h: History)
    ensures |h.statuses| == |ins|
    decreases |ins|
  {
    if ins == [] then History([], t, [])
    else
      var o := TaskStep(t, ins[0].delta, ins[0].answers);
      var h := TaskRun(o.next, ins[1..]);
      History([o.status] + h.statuses, h.last, o.events + h.events)
  }

  /** Neither timed nor composite tasks ever report failure, whatever the inputs. */
  lemma {:induction false} NeverFails(t: TaskState, ins: seq<Input>)
    requires t.OneUseState? || t.CompositeState?
    ensures Failure !in TaskRun(t, ins).statuses
    decreases |ins|
  {
    if ins != [] {
      var o := TaskStep(t, ins[0].delta, ins[0].answers);
      NeverFails(o.next, ins[1..]);
    }
  }

  /**
   * Between two successes the one-use action runs at most once: over any run
   * that reports no success it runs exactly once if the task had not used it,
   * and never otherwise, while the background action runs on every tick.
   */
  lemma {:induction false} OneUseOncePerActivation(t: TaskState, ins: seq<Input>)
    requires t.OneUseState?
    requires Success !in TaskRun(t, ins).statuses
    ensures var h := TaskRun(t, ins);
      multiset(h.events)[OneUseRan] == (if ins != [] && !t.used then 1 else 0) &&
      multiset(h.events)[BackgroundRan] == |ins| &&
      h.last.OneUseState? && h.last.used == (t.used || ins != [])
    decreases |ins|
  {
    if ins != [] {
      var o := TaskStep(t, ins[0].delta, ins[0].answers);
      var h := TaskRun(o.next, ins[1..]);
      assert TaskRun(t, ins).statuses == [o.status] + h.statuses;
      assert o.status != Success;
      OneUseRuns(t, ins[0].delta);
      assert Success !in h.statuses;
      OneUseOncePerActivation(o.next, ins[1..]);
      assert TaskRun(t, ins).events == o.events + h.events;
    }
  }

  /** Neither predicate of the composite task holds on any tick. */
  predicate Undecided(ins: seq<Input>)
  {
    forall i :: 0 <= i < |ins| ==> !ins[i].answers.succeeded && !ins[i].answers.failed
  }

  /** A tick on which neither predicate holds: running, started, and the callbacks in order. */
  lemma UndecidedStep(t: TaskState, delta: real, ans: Answers)
    requires t.CompositeState? && !ans.succeeded && !ans.failed
    ensures TaskStep(t, delta, ans)
         == Outcome(Running, CompositeState(true),
                    (if t.started then [] else [StartRan]) + [SuccessAsked, FailAsked, BackgroundRan])
  {
  }

  /** One tick of an undecided run: the first step, then the rest of the run. */
  lemma UndecidedFirst(t: TaskState, ins: seq<Input>)
    requires t.CompositeState? && Undecided(ins) && ins != []
    ensures var o := TaskStep(t, ins[0].delta, ins[0].answers);
      var h := TaskRun(CompositeState(true), ins[1..]);
      Undecided(ins[1..]) &&
      o.next == CompositeState(true) &&
      TaskRun(t, ins) == History([Running] + h.statuses, h.last, o.events + h.events)
  {
    UndecidedStep(t, ins[0].delta, ins[0].answers);
    forall i | 0 <= i < |ins[1..]|
      ensures !ins[1..][i].answers.succeeded && !ins[1..][i].answers.failed
    {
      assert ins[1..][i] == ins[i + 1];
    }
  }

  /** While neither predicate holds the composite task reports running and stays started. */
  lemma {:induction false} UndecidedRuns(t: TaskState, ins: seq<Input>)
    requires t.CompositeState? && Undecided(ins)
    ensures var h := TaskRun(t, ins);
      (forall i :: 0 <= i < |ins| ==> h.statuses[i] == Running) &&
      h.last == CompositeState(t.started || ins != [])
    decreases |ins|
  {
    if ins != [] {
      UndecidedFirst(t, ins);
      UndecidedRuns(CompositeState(true), ins[1..]);
      var h := TaskRun(CompositeState(true), ins[1..]);
      forall i | 0 <= i < |ins| ensures ([Running] + h.statuses)[i] == Running {
        if i > 0 { assert ([Running] + h.statuses)[i] == h.statuses[i - 1]; }
      }
    }
  }

  /**
   * While neither predicate holds, the composite task keeps reporting running,
   * runs its start action exactly once per activation (never if it was already
   * started) and its background action on every tick.
   */
  lemma {:induction false} StartOncePerActivation(t: TaskState, ins: seq<Input>)
    requires t.CompositeState? && Undecided(ins)
    ensures var h := TaskRun(t, ins);
      (forall i :: 0 <= i < |ins| ==> h.statuses[i] == Running) &&
      multiset(h.events)[StartRan] == (if ins != [] && !t.started then 1 else 0) &&
      multiset(h.events)[BackgroundRan] == |ins| &&
      h.last == CompositeState(t.started || ins != [])
    decreases |ins|
  {
    UndecidedRuns(t, ins);
    if ins != [] {
      var o := TaskStep(t, ins[0].delta, ins[0].answers);
      var h := TaskRun(CompositeState(true), ins[1..]);
      assert multiset(TaskRun(t, ins).events) == multiset(o.events) + multiset(h.events) by {
        UndecidedFirst(t, ins);
      }
      assert multiset(o.events)[StartRan] == (if t.started then 0 else 1) &&
             multiset(o.events)[BackgroundRan] == 1 by {
        UndecidedStep(t, ins[0].delta, ins[0].answers);
      }
      UndecidedFirst(t, ins);
      StartOncePerActivation(CompositeState(true), ins[1..]);
    }
  }

  /** After a resolution, the next tick starts a new activation and runs the start action again. */
  lemma CompositeRestarts(t: TaskState, first: Answers, second: Answers)
    requires t.CompositeState?
    requires CompositeStep(t, first).status == Success
    ensures StartRan in CompositeStep(CompositeStep(t, first).next, second).events
  {
  }

  /**
   * A timed task of duration 2 fed the steps 0.5, 0.5, 0.5, 0.6: the one-use
   * action runs on the first tick only, the background action on the first
   * three, and the fourth tick (2.1 > 2) reports success, runs nothing and
   * rearms the task.
   */
  lemma TimedTaskExample(a: Answers)
    ensures TaskRun(OneUseState(2.0, 0.0, false),
                    [Input(0.5, a), Input(0.5, a), Input(0.5, a), Input(0.6, a)])
         == History([Running, Running, Running, Success], OneUseState(2.0, 0.0, false),
                    [OneUseRan, BackgroundRan, BackgroundRan, BackgroundRan])
  {
    var rearmed := OneUseState(2.0, 0.0, false);
    var in5, in6 := Input(0.5, a), Input(0.6, a);
    var h4 := TaskRun(OneUseState(2.0, 1.5, true), [in6]);
    assert h4 == History([Success], rearmed, []) by {
      TaskRunFirst(OneUseState(2.0, 1.5, true), [in6]);
      assert [in6][1..] == [];
    }
    var h3 := TaskRun(OneUseState(2.0, 1.0, true), [in5, in6]);
    assert h3 == History([Running, Success], rearmed, [BackgroundRan]) by {
      TaskRunFirst(OneUseState(2.0, 1.0, true), [in5, in6]);
      assert [in5, in6][1..] == [in6];
    }
    var h2 := TaskRun(OneUseState(2.0, 0.5, true), [in5, in5, in6]);
    assert h2 == History([Running, Running, Success], rearmed, [BackgroundRan, BackgroundRan]) by {
      TaskRunFirst(OneUseState(2.0, 0.5, true), [in5, in5, in6]);
      assert [in5, in5, in6][1..] == [in5, in6];
    }
    TaskRunFirst(rearmed, [in5, in5, in5, in6]);
    assert [in5, in5, in5, in6][1..] == [in5, in5, in6];
  }

  /** A run is its first tick followed by the run of the remaining ticks. */
  lemma TaskRunFirst(t: TaskState, ins: seq<Input>)
    requires ins != []
    ensures var o := TaskStep(t, ins[0].delta, ins[0].answers);
      var h := TaskRun(o.next, ins[1..]);
      TaskRun(t, ins) == History([o.status] + h.statuses, h.last, o.events + h.events)
  {
  }

  // ---------------------------------------------------------------------------
  // The task classes
  // ---------------------------------------------------------------------------

  class ActionTask {
    ghost var trace: seq<Event>

    constructor ()
      ensures trace == []
    {
      trace := [];
    }

    method GetStatus() returns (st: Status)
      modifies this
      ensures st == ActionStep().status && trace == old(trace) + ActionStep().events
    {
      trace := trace + [ActionRan];
      st := Success;
    }
  }

  class Condition {
    ghost var trace: seq<Event>

    constructor ()
      ensures trace == []
    {
      trace := [];
    }

    /** `holds` is what the predicate answers on this call. */
    method GetStatus(holds: bool) returns (st: Status)
      modifies this
      ensures st == ConditionStep(holds).status && trace == old(trace) + ConditionStep(holds).events
    {
      trace := trace + [ConditionAsked];
      st := if holds then Success else Failure;
    }
  }

  class OneUseActionTask {
    const timeUntilActionCompleted: real
    var timeElapsed: real
    var oneUseActionBeenUsed: bool
    ghost var trace: seq<Event>

    function State(): TaskState
      reads this
    {
      OneUseState(timeUntilActionCompleted, timeElapsed, oneUseActionBeenUsed)
    }

    constructor (timeUntilActionCompleted: real)
      ensures State() == OneUseState(timeUntilActionCompleted, 0.0, false) && trace == []
    {
      this.timeUntilActionCompleted := timeUntilActionCompleted;
      timeElapsed := 0.0;
      oneUseActionBeenUsed := false;
      trace := [];
    }

    /** `delta` is the frame time step the engine would supply. */
    method GetStatus(delta: real) returns (st: Status)
      modifies this
      ensures var o := OneUseStep(old(State()), delta);
        st == o.status && State() == o.next && trace == old(trace) + o.events
    {
      timeElapsed := timeElapsed + delta;
      if timeElapsed > timeUntilActionCompleted {
        timeElapsed := 0.0;
        oneUseActionBeenUsed := false;
        return Success;
      }
      if !oneUseActionBeenUsed {
        oneUseActionBeenUsed := true;
        trace := trace + [OneUseRan];
      }
      trace := trace + [BackgroundRan];
      return Running;
    }
  }

  class ActionTaskSuccessFailBackground {
    var startActionBeenRan: bool
    ghost var trace: seq<Event>

    function State(): TaskState
      reads this
    {
      CompositeState(startActionBeenRan)
    }

    constructor ()
      ensures State() == CompositeState(false) && trace == []
    {
      startActionBeenRan := false;
      trace := [];
    }

    /** `succeeds` and `fails` are what the two predicates answer if asked on this call. */
    method GetStatus(succeeds: bool, fails: bool) returns (st: Status)
      modifies this
      ensures var o := CompositeStep(old(State()), Answers(false, succeeds, fails));
        st == o.status && State() == o.next && trace == old(trace) + o.events
    {
      if !startActionBeenRan {
        startActionBeenRan := true;
        trace := trace + [StartRan];
      }
      trace := trace + [SuccessAsked];
      if succeeds {
        trace := trace + [SuccessRan];
        startActionBeenRan := false;
        return Success;
      }
      trace := trace + [FailAsked];
      if fails {
        trace := trace + [FailRan];
        startActionBeenRan := false;
        return Success;
      }
      trace := trace + [BackgroundRan];
      return Running;
    }
  }
}
