/** The task queue of `net/EventLoop.cpp`: any number of producers, one loop thread, a lock-protected
    vector and an eventfd, as interleaved atomic steps. */
module TaskQueue {

  /** A queued task; `early` marks one the loop thread queued while it was not inside `loop()`. */
  datatype Task = Task(id: nat, early: bool)

  /** Where the loop thread is: outside `loop()`, about to poll, handling the ready channels (with the
      wakeup channel among those still to handle or not), between raising `is_processing_tasks_` and
      the swap, running the swapped tasks, or about to test `quit_`. */
  datatype Place = Outside | AboutToPoll | Handling(wakeup: bool) | BeforeSwap | Running | TestingQuit

  /** `pushed` is the log of all pushes in lock order, `executed` that of the tasks taken from batches. */
  datatype State = State(
    place: Place,
    queue: seq<Task>,
    batch: seq<Task>,
    counter: nat,          // the eventfd
    writers: nat,          // other threads between an action and the wakeup write that follows it
    loopPushed: bool,      // the loop thread is between a push and the test that follows it
    processing: bool,      // is_processing_tasks_
    quit: bool,
    swaps: nat,            // since loop() was entered
    pushed: seq<Task>,
    executed: seq<Task>)

  datatype Step =
    | ProducerPush(id: nat)
    | ProducerWrite
    | OutsideQuit
    | EnterLoop
    | PollReturns(wakeup: bool)
    | ReadEventFd
    | RaiseFlag
    | Swap
    | RunTask
    | LowerFlag
    | TestQuit
    | LoopPush(id: nat)
    | LoopTestAndWrite
    | LoopQuit

  /** The largest value an eventfd holds; a write beyond it fails with EAGAIN. */
  const EVENTFD_MAX: nat := 0xffff_ffff_ffff_fffe

  function Written(counter: nat): (r: nat)
    ensures r > 0
  {
    if counter < EVENTFD_MAX then counter + 1 else counter
  }

  /** The loop thread is executing user code. */
  predicate InUserCode(s: State) {
    !s.loopPushed && (s.place == Outside || s.place.Handling? || s.place == Running)
  }

  predicate Enabled(s: State, step: Step) {
    match step
    case ProducerPush(_) => true
    case ProducerWrite => s.writers > 0
    case OutsideQuit => true
    case EnterLoop => s.place == Outside && !s.loopPushed
    case PollReturns(wakeup) => s.place == AboutToPoll && (wakeup ==> s.counter > 0)
    case ReadEventFd => s.place == Handling(true) && !s.loopPushed
    case RaiseFlag => s.place == Handling(false) && !s.loopPushed
    case Swap => s.place == BeforeSwap
    case RunTask => s.place == Running && s.batch != [] && !s.loopPushed
    case LowerFlag => s.place == Running && s.batch == [] && !s.loopPushed
    case TestQuit => s.place == TestingQuit
    case LoopPush(_) => InUserCode(s)
    case LoopTestAndWrite => s.loopPushed
    case LoopQuit => InUserCode(s)
  }

  function Enqueue(s: State, t: Task): State {
    s.(queue := s.queue + [t], pushed := s.pushed + [t])
  }

  function Apply(s: State, step: Step): State
    requires Enabled(s, step)
  {
    match step
    case ProducerPush(id) => Enqueue(s, Task(id, false)).(writers := s.writers + 1)
    case ProducerWrite => s.(writers := s.writers - 1, counter := Written(s.counter))
    case OutsideQuit => s.(quit := true, writers := s.writers + 1)
    case EnterLoop => s.(place := TestingQuit, quit := false, swaps := 0)
    case PollReturns(wakeup) => s.(place := Handling(wakeup))
    case ReadEventFd => s.(place := Handling(false), counter := 0)
    case RaiseFlag => s.(place := BeforeSwap, processing := true)
    case Swap => s.(place := Running, batch := s.queue, queue := [], swaps := s.swaps + 1)
    case RunTask => s.(executed := s.executed + [s.batch[0]], batch := s.batch[1..])
    case LowerFlag => s.(place := TestingQuit, processing := false)
    case TestQuit => s.(place := if s.quit then Outside else AboutToPoll)
    case LoopPush(id) => Enqueue(s, Task(id, s.place == Outside)).(loopPushed := true)
    case LoopTestAndWrite =>
      s.(loopPushed := false, counter := if s.processing then Written(s.counter) else s.counter)
    case LoopQuit => s.(quit := true)
  }

  // ---- The invariant -----------------------------------------------------

  predicate AllEarly(ts: seq<Task>) {
    forall i :: 0 <= i < |ts| ==> ts[i].early
  }

  predicate NoneEarly(ts: seq<Task>) {
    forall i :: 0 <= i < |ts| ==> !ts[i].early
  }

  /** A poll will return at once, or some thread is about to make it return. */
  predicate WakeupDue(s: State) {
    s.counter > 0 || s.writers > 0 || (s.loopPushed && s.processing)
  }

  predicate Conserved(s: State) {
    s.pushed == s.executed + s.batch + s.queue
  }

  predicate Control(s: State) {
    && (s.batch != [] ==> s.place == Running)
    && s.processing == (s.place == BeforeSwap || s.place == Running)
    && (s.loopPushed ==> s.place == Outside || s.place.Handling? || s.place == Running)
    && (s.place != Outside && s.swaps > 0 ==> NoneEarly(s.queue))
    && (s.place == Running ==> s.swaps > 0)
    && (!s.place.Handling? && s.place != BeforeSwap ==> AllEarly(s.queue) || WakeupDue(s))
    && (s.place == AboutToPoll && s.quit ==> s.counter > 0 || s.writers > 0)
  }

  predicate Inv(s: State) {
    Conserved(s) && Control(s)
  }

  lemma StepConserves(s: State, step: Step)
    requires Inv(s) && Enabled(s, step)
    ensures Conserved(Apply(s, step))
  {
    var s' := Apply(s, step);
    match step
    case Swap => assert s.executed + s.batch + s.queue == s.executed + s.queue + [];
    case RunTask =>
      assert s.batch == [s.batch[0]] + s.batch[1..];
      assert s.executed + s.batch == s'.executed + s'.batch;
    case _ =>
  }

  lemma StepControls(s: State, step: Step)
    requires Inv(s) && Enabled(s, step)
    ensures Control(Apply(s, step))
  {
  }

  lemma StepKeeps(s: State, step: Step)
    requires Inv(s) && Enabled(s, step)
    ensures Inv(Apply(s, step))
  {
    StepConserves(s, step);
    StepControls(s, step);
  }

  // ---- Runs --------------------------------------------------------------

  const INITIAL: State := State(Outside, [], [], 0, 0, false, false, true, 0, [], [])

  predicate CanRun(s: State, steps: seq<Step>)
    decreases steps
  {
    steps == [] || (Enabled(s, steps[0]) && CanRun(Apply(s, steps[0]), steps[1..]))
  }

  function Run(s: State, steps: seq<Step>): State
    requires CanRun(s, steps)
    decreases steps
  {
    if steps == [] then s else Run(Apply(s, steps[0]), steps[1..])
  }

  lemma {:induction false} RunKeeps(s: State, steps: seq<Step>)
    requires Inv(s) && CanRun(s, steps)
    ensures Inv(Run(s, steps))
    decreases steps
  {
    if steps != [] {
      StepKeeps(s, steps[0]);
      RunKeeps(Apply(s, steps[0]), steps[1..]);
    }
  }

  /** In every interleaving: what was executed, the rest of the batch and the queue are the pushes in
      lock order; and when the loop is about to poll, the batch is used up. */
  lemma TasksConserved(steps: seq<Step>)
    requires CanRun(INITIAL, steps)
    ensures var s := Run(INITIAL, steps);
            && s.executed + s.batch + s.queue == s.pushed
            && (s.place == AboutToPoll ==> s.executed + s.queue == s.pushed)
  {
    RunKeeps(INITIAL, steps);
    var s := Run(INITIAL, steps);
    if s.batch == [] {
      assert s.executed + s.batch == s.executed;
    }
  }

  /** In every interleaving: a loop about to poll with tasks waiting finds its eventfd readable or has a
      producer that is yet to write, but for tasks its own thread queued before entering `loop()`. */
  lemma NoLostWakeup(steps: seq<Step>)
    requires CanRun(INITIAL, steps)
    ensures var s := Run(INITIAL, steps);
            s.place == AboutToPoll && s.queue != [] ==>
              s.counter > 0 || s.writers > 0 || (s.swaps == 0 && AllEarly(s.queue))
  {
    RunKeeps(INITIAL, steps);
    var s := Run(INITIAL, steps);
    if s.queue != [] && AllEarly(s.queue) {
      assert s.queue[0].early;
    }
  }

  /** Nor is a `quit()` lost: a loop about to poll that was told to quit finds its eventfd readable or a thread
      yet to write. */
  lemma NoLostQuit(steps: seq<Step>)
    requires CanRun(INITIAL, steps)
    ensures var s := Run(INITIAL, steps); s.place == AboutToPoll && s.quit ==> s.counter > 0 || s.writers > 0
  {
    RunKeeps(INITIAL, steps);
  }

  /** Any thread can push at any time, and what it pushes is the last of the queue and of the log; in user code the
      loop thread can, too. */
  lemma PushExact(s: State, id: nat)
    ensures Enabled(s, ProducerPush(id))
    ensures var s' := Apply(s, ProducerPush(id));
            s'.pushed == s.pushed + [Task(id, false)] && s'.queue == s.queue + [Task(id, false)]
            && s'.writers == s.writers + 1
    ensures !s.loopPushed && (s.place == Outside || s.place.Handling? || s.place == Running) ==>
              && Enabled(s, LoopPush(id))
              && Apply(s, LoopPush(id)).pushed == s.pushed + [Task(id, s.place == Outside)]
              && Apply(s, LoopPush(id)).queue == s.queue + [Task(id, s.place == Outside)]
  {
  }

  /** The exception is real: such a task waits for the poll timeout. */
  lemma EarlyTaskSleeps(id: nat)
    ensures var steps := [LoopPush(id), LoopTestAndWrite, EnterLoop, TestQuit];
            CanRun(INITIAL, steps) &&
            var s := Run(INITIAL, steps);
            s.place == AboutToPoll && s.queue == [Task(id, true)] && s.counter == 0 && s.writers == 0
  {
    var steps := [LoopPush(id), LoopTestAndWrite, EnterLoop, TestQuit];
    var s1 := Apply(INITIAL, steps[0]);
    var s2 := Apply(s1, steps[1]);
    var s3 := Apply(s2, steps[2]);
    var s4 := Apply(s3, steps[3]);
    assert steps[1..] == [LoopTestAndWrite, EnterLoop, TestQuit] && steps[1..][1..] == [EnterLoop, TestQuit];
    assert steps[1..][1..][1..] == [TestQuit] && steps[1..][1..][1..][1..] == [];
    assert CanRun(s4, []) && CanRun(s3, [TestQuit]) && CanRun(s2, steps[1..][1..]) && CanRun(s1, steps[1..]);
    assert Run(s3, [TestQuit]) == s4 && Run(s2, steps[1..][1..]) == s4;
  }

  // ---- Progress ----------------------------------------------------------

  ghost predicate Reaches(s: State, s': State) {
    exists steps :: CanRun(s, steps) && Run(s, steps) == s'
  }

  lemma ReachesSelf(s: State)
    ensures Reaches(s, s)
  {
    assert CanRun(s, []) && Run(s, []) == s;
  }

  lemma StepReaches(s: State, step: Step, s': State)
    requires Enabled(s, step) && Reaches(Apply(s, step), s')
    ensures Reaches(s, s')
  {
    var steps :| CanRun(Apply(s, step), steps) && Run(Apply(s, step), steps) == s';
    assert ([step] + steps)[1..] == steps;
    assert CanRun(s, [step] + steps) && Run(s, [step] + steps) == s';
  }

  /** What the loop thread does next when neither other threads nor user code do anything. */
  function Next(s: State): (step: Step)
    ensures Enabled(s, step)
  {
    if s.loopPushed then LoopTestAndWrite
    else match s.place
         case Outside => EnterLoop
         case AboutToPoll => PollReturns(s.counter > 0)
         case Handling(wakeup) => if wakeup then ReadEventFd else RaiseFlag
         case BeforeSwap => Swap
         case Running => if s.batch != [] then RunTask else LowerFlag
         case TestingQuit => TestQuit
  }

  /** Turns until all tasks pushed so far are run. */
  function Turns(s: State): nat {
    match s.place
    case Running => if s.queue == [] then 0 else if s.batch == [] then 8 else 9
    case BeforeSwap => 1
    case Handling(wakeup) => if wakeup then 3 else 2
    case AboutToPoll => 4
    case TestingQuit => if s.quit then 7 else 5
    case Outside => 6
  }

  /** Left to itself the loop thread runs every task pushed so far, whatever state it is in. */
  lemma {:induction false} RunsAll(s: State) returns (s': State)
    requires Inv(s)
    ensures Reaches(s, s') && s'.pushed == s.pushed && s'.executed == s.pushed
    decreases Turns(s), |s.batch|, if s.loopPushed then 1 else 0
  {
    if s.batch == [] && s.queue == [] {
      assert s.executed + [] + [] == s.executed;
      ReachesSelf(s);
      s' := s;
    } else {
      StepKeeps(s, Next(s));
      s' := RunsAll(Apply(s, Next(s)));
      StepReaches(s, Next(s), s');
    }
  }

  /** So from every state of every interleaving all tasks can get run, in the order they were pushed. */
  lemma AllTasksRun(steps: seq<Step>) returns (s': State)
    requires CanRun(INITIAL, steps)
    ensures Reaches(Run(INITIAL, steps), s') && s'.executed == Run(INITIAL, steps).pushed
  {
    RunKeeps(INITIAL, steps);
    s' := RunsAll(Run(INITIAL, steps));
  }

  /** Running a task takes the oldest one not yet run; reading the eventfd uses up its wakeups. */
  lemma TurnExact(s: State)
    requires Inv(s)
    ensures Enabled(s, RunTask) ==>
              |s.executed| < |s.pushed| && Apply(s, RunTask).executed == s.executed + [s.pushed[|s.executed|]]
    ensures Enabled(s, ReadEventFd) ==> Apply(s, ReadEventFd).counter == 0
  {
  }

  /** After `quit()` the loop is left at the next test, unless `loop()` is entered anew before it. */
  lemma {:induction false} QuitLeaves(s: State, steps: seq<Step>)
    requires CanRun(s, steps) && EnterLoop !in steps && (s.quit || OutsideQuit in steps || LoopQuit in steps)
    ensures Run(s, steps).quit
    ensures Enabled(Run(s, steps), TestQuit) ==> Apply(Run(s, steps), TestQuit).place == Outside
    decreases steps
  {
    if steps != [] {
      assert steps[0] in steps;
      assert forall step :: step in steps <==> step == steps[0] || step in steps[1..];
      QuitLeaves(Apply(s, steps[0]), steps[1..]);
    }
  }

  /** And it is not left otherwise. */
  lemma OnlyQuitLeaves(s: State, step: Step)
    requires Enabled(s, step) && s.place != Outside && Apply(s, step).place == Outside
    ensures step == TestQuit && s.quit
  {
  }
}
