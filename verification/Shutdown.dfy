/** `shutdown()` and `shutdownInLoop()` of `net/TcpConnection.cpp`, with any thread calling the first:
    when is the socket really half-closed? */
module Shutdown {
  import opened States

  /** `passed` threads are between the test and the assignment in `shutdown()`; `queued` calls of
      `shutdownInLoop` wait on the loop. */
  datatype State = State(state: ConnState, writing: bool, passed: nat, queued: nat, halfClosed: bool)

  datatype Step =
    | Establish
    | ShutdownTest          // shutdown(): the state is Connected
    | ShutdownAssign        // shutdown(): the state becomes Disconnecting, shutdownInLoop is handed to the loop
    | RunQueued             // the loop runs that shutdownInLoop
    | CallDirectly          // somebody calls the public shutdownInLoop
    | StartWriting          // bytes are left over after a send
    | Drained               // handleWritable empties the send buffer
    | Close                 // handleClose
    | Destroy               // connectionDestroyed

  const INITIAL: State := State(Connecting, false, 0, 0, false)

  predicate Enabled(s: State, step: Step) {
    match step
    case Establish => s.state == Connecting
    case ShutdownTest => s.state == Connected
    case ShutdownAssign => s.passed > 0
    case RunQueued => s.queued > 0
    case CallDirectly => true
    case StartWriting => true
    case Drained => s.writing
    case Close => s.state == Connected || s.state == Disconnecting
    case Destroy => true
  }

  /** `shutdownInLoop()`. */
  function ShutdownInLoop(s: State): State {
    if s.state == Connected then s.(state := Disconnecting, halfClosed := s.halfClosed || !s.writing) else s
  }

  function Apply(s: State, step: Step): State
    requires Enabled(s, step)
  {
    match step
    case Establish => s.(state := Connected)
    case ShutdownTest => s.(passed := s.passed + 1)
    case ShutdownAssign => s.(passed := s.passed - 1, state := Disconnecting, queued := s.queued + 1)
    case RunQueued => ShutdownInLoop(s.(queued := s.queued - 1))
    case CallDirectly => ShutdownInLoop(s)
    case StartWriting => s.(writing := true)
    case Drained =>
      var s' := s.(writing := false);
      if s'.state == Disconnecting then ShutdownInLoop(s') else s'
    case Close => s.(state := Disconnected, writing := false)
    case Destroy => s.(state := Disconnected, writing := false)
  }

  /** The steps can be taken one after the other from the start. */
  predicate CanRun(steps: seq<Step>)
    decreases |steps|, 0
  {
    steps == [] || (CanRun(steps[..|steps| - 1]) && Enabled(Run(steps[..|steps| - 1]), steps[|steps| - 1]))
  }

  function Run(steps: seq<Step>): State
    requires CanRun(steps)
    decreases |steps|, 1
  {
    if steps == [] then INITIAL else Apply(Run(steps[..|steps| - 1]), steps[|steps| - 1])
  }

  lemma {:induction false} PrefixRuns(steps: seq<Step>, i: nat)
    requires CanRun(steps) && i <= |steps|
    ensures CanRun(steps[..i])
    decreases |steps|
  {
    if i < |steps| {
      PrefixRuns(steps[..|steps| - 1], i);
      assert steps[..|steps| - 1][..i] == steps[..i];
    } else {
      assert steps[..i] == steps;
    }
  }

  /** Once `shutdown()` has handed its task to the loop, the connection is no longer Connected. */
  predicate Inv(s: State) {
    && (s.queued > 0 ==> s.state == Disconnecting || s.state == Disconnected)
    && (s.passed > 0 ==> s.state != Connecting)
    && (s.halfClosed ==> s.state == Disconnecting || s.state == Disconnected)
  }

  lemma {:induction false} RunKeeps(steps: seq<Step>)
    requires CanRun(steps)
    ensures Inv(Run(steps))
    decreases |steps|
  {
    if steps != [] {
      RunKeeps(steps[..|steps| - 1]);
    }
  }

  /** Step i calls `shutdownInLoop` directly on a connected connection with nothing left to write. */
  ghost predicate HalfClosesAt(steps: seq<Step>, i: nat)
    requires CanRun(steps) && i < |steps|
  {
    PrefixRuns(steps, i);
    steps[i] == CallDirectly && Run(steps[..i]).state == Connected && !Run(steps[..i]).writing
  }

  /** In every run the socket is half-closed exactly when such a direct call has occurred. */
  lemma {:induction false} HalfClosedIff(steps: seq<Step>)
    requires CanRun(steps)
    ensures Run(steps).halfClosed <==> exists i :: 0 <= i < |steps| && HalfClosesAt(steps, i)
    decreases |steps|
  {
    if steps != [] {
      var n := |steps| - 1;
      var init := steps[..n];
      HalfClosedIff(init);
      RunKeeps(init);
      forall i | 0 <= i < n
        ensures HalfClosesAt(init, i) <==> HalfClosesAt(steps, i)
      {
        assert init[..i] == steps[..i];
      }
      assert Run(steps).halfClosed <==> Run(init).halfClosed || HalfClosesAt(steps, n);
    }
  }

  /** What steps do to state and write interest. */
  lemma StepStates(s: State, step: Step)
    requires Enabled(s, step)
    ensures var s' := Apply(s, step);
            && (step == Establish ==> s'.state == Connected)
            && (step == ShutdownAssign ==> s'.state == Disconnecting)
            && (step == Close || step == Destroy ==> s'.state == Disconnected && !s'.writing)
            && (step == StartWriting ==> s'.writing) && (step == Drained ==> !s'.writing)
            && (step != CallDirectly ==> s'.halfClosed == s.halfClosed || step == RunQueued)
  {
  }

  /** Such a call is possible, and leaves the connection disconnecting. */
  lemma DirectCallHalfCloses()
    ensures CanRun([Establish, CallDirectly])
    ensures Run([Establish, CallDirectly]) == State(Disconnecting, false, 0, 0, true)
  {
    var steps := [Establish, CallDirectly];
    assert steps[..1] == [Establish] && [Establish][..0] == [];
    assert CanRun([Establish]) && Run([Establish]) == State(Connected, false, 0, 0, false);
  }

  /** The socket is half-closed at most once. */
  lemma HalfClosedOnce(steps: seq<Step>, i: nat)
    requires CanRun(steps) && i < |steps| && HalfClosesAt(steps, i)
    ensures CanRun(steps[..i]) && !Run(steps[..i]).halfClosed
    ensures forall j :: 0 <= j < i ==> !HalfClosesAt(steps, j)
  {
    PrefixRuns(steps, i);
    RunKeeps(steps[..i]);
    HalfClosedIff(steps[..i]);
    forall j | 0 <= j < i
      ensures !HalfClosesAt(steps, j)
    {
      assert steps[..i][..j] == steps[..j];
      assert !HalfClosesAt(steps[..i], j);
    }
  }

  /** So `shutdown()` alone never half-closes, whatever else happens. */
  lemma ShutdownNeverHalfCloses(steps: seq<Step>)
    requires CanRun(steps) && CallDirectly !in steps
    ensures !Run(steps).halfClosed
  {
    HalfClosedIff(steps);
  }
}
