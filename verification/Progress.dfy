/** What the steps of the server bring about, and that every connection's life can be completed. */
module Progress {
  import opened Bytes
  import opened Events
  import opened States
  import opened Server

  // ---- What each step does -----------------------------------------------

  /** A poll hands over exactly the channels reported, and a read callback will run for exactly those with readable
      or urgent data. */
  lemma PollExact(s: State, l: nat, reports: seq<(nat, bv32)>)
    requires Inv(s) && WellFormed(s) && Enabled(s, Step.Poll(l, reports))
    ensures var s' := Apply(s, Step.Poll(l, reports));
            && s'.conns == s.conns && s'.loops[l].phase == Handling
            && |s'.loops[l].ready| == |reports|
            && forall i :: 0 <= i < |reports| ==>
                 var r := s'.loops[l].ready[i];
                 r.c == reports[i].0 && (RunsRead(r.revents) <==> reports[i].1 & 0x3 != 0)
  {
    forall i | 0 <= i < |reports|
      ensures RunsRead(Returned(s.backend, reports[i].1)) <==> reports[i].1 & 0x3 != 0
    {
      ReadIff(s.backend, s.conns[reports[i].0].interest, reports[i].1);
    }
  }

  /** No other connection changes by handling a ready channel, which is then off the list. */
  ghost predicate OnlyHandled(s: State, l: nat, c: nat, s': State)
    requires l in s.loops && s.loops[l].ready != []
  {
    && l in s'.loops && s'.loops[l].ready == s.loops[l].ready[1..] && s'.loops[l].phase == Handling
    && s'.conns.Keys == s.conns.Keys
    && forall d :: d in s.conns && d != c ==> s'.conns[d] == s.conns[d]
  }

  /** A read callback that reads end of file closes its connection: it has lived its close, is disconnected and
      asks for nothing, and its removal is done or the next task of the base loop. */
  lemma HandleCloses(s: State, l: nat)
    requires Inv(s) && WellFormed(s) && Enabled(s, HandleEvent(l, Eof)) && RunsRead(s.loops[l].ready[0].revents)
    ensures var c, s' := s.loops[l].ready[0].c, Apply(s, HandleEvent(l, Eof));
            && OnlyHandled(s, l, c, s') && c in s.conns
            && var k := s'.conns[c];
               && k.owner == l && |k.history| >= 2 && k.history[..2] == [Established(l), Closed(l)]
               && k.state == Disconnected && k.interest == Interest(false, false)
               && (l == BASE ==> c !in s'.connections)
               && (l != BASE ==> s'.loops[BASE].queue == s.loops[BASE].queue + [Remove(c)])
  {
    var r := s.loops[l].ready[0];
    assert ReadyListOk(s, l);
    assert ReadyOk(s, l, r);
    assert ConnOk(s, r.c);
  }

  /** In every other case, a read error included, no connection changes and no task is added. */
  lemma HandleQuiet(s: State, l: nat, result: ReadResult)
    requires Inv(s) && WellFormed(s) && Enabled(s, HandleEvent(l, result))
    requires !RunsRead(s.loops[l].ready[0].revents) || result == Data || result == Error
    ensures var s' := Apply(s, HandleEvent(l, result));
            && OnlyHandled(s, l, s.loops[l].ready[0].c, s')
            && s'.conns == s.conns && s'.connections == s.connections
            && forall m :: m in s.loops ==> m in s'.loops && s'.loops[m].Todo() == s.loops[m].Todo()
  {
  }

  /** An accepted connection is new, belongs to the loop chosen and is in `connections_`; on the base loop it is
      established at once, elsewhere its establishment is the last task of its loop. */
  lemma AcceptExact(s: State, owner: nat)
    requires Inv(s) && WellFormed(s) && Enabled(s, Accept(owner))
    ensures var c, s' := s.nextId, Apply(s, Accept(owner));
            && c !in s.conns && c in s'.conns && c in s'.connections && s'.conns[c].owner == owner
            && (forall d :: d in s.conns ==> d in s'.conns && s'.conns[d] == s.conns[d])
            && (owner == BASE ==> s'.conns[c].history == [Established(BASE)] && s'.conns[c].state == Connected)
            && (owner != BASE ==>
                  s'.conns[c].history == [] && s'.loops[owner].queue == s.loops[owner].queue + [Establish(c)])
  {
    forall d | d in s.conns
      ensures d < s.nextId
    {
      assert ConnOk(s, d);
    }
  }

  /** Running the next task makes its connection live exactly one event, on this loop, and no other connection
      changes. Established, it is connected and registered for reading; destroyed, it is not registered. */
  lemma TaskExact(s: State, l: nat)
    requires Inv(s) && WellFormed(s) && Enabled(s, RunTask(l))
    ensures var t, s' := s.loops[l].batch[0], Apply(s, RunTask(l));
            && t.c in s.conns && s'.conns.Keys == s.conns.Keys
            && (forall d :: d in s.conns && d != t.c ==> s'.conns[d] == s.conns[d])
            && s'.conns[t.c].owner == s.conns[t.c].owner
            && s'.loops[l].batch == s.loops[l].batch[1..] && s'.loops[l].phase == Running
            && var k := s'.conns[t.c];
               match t
               case Establish(_) =>
                 k.history == [Established(l)] && k.state == Connected && k.interest.read && k.registered
               case Remove(_) => k.history == s.conns[t.c].history + [Removed(l)] && t.c !in s'.connections
               case Destroy(_) =>
                 k.history == s.conns[t.c].history + [Destroyed(l)] && k.state == Disconnected && !k.registered
                 && k.interest == Interest(false, false)
  {
    var t := s.loops[l].batch[0];
    assert TasksOk(s, l, None);
    assert t in s.loops[l].Todo();
    assert Due(s, l, t);
    assert ConnOk(s, t.c);
  }

  /** Write interest and `shutdown()` from outside change just that of the connection. */
  lemma OutsideExact(s: State, c: nat, on: bool)
    requires Inv(s) && WellFormed(s) && c in s.conns && !s.aborted
    ensures var k := Apply(s, SetWriting(c, on)).conns[c];
            k.interest == Interest(s.conns[c].interest.read, on) && k.state == s.conns[c].state && k.registered
            && k.history == s.conns[c].history
    ensures c in s.halfShut ==>
              var k := Apply(s, ShutdownSet(c)).conns[c];
              k.state == Disconnecting && k.interest == s.conns[c].interest && k.history == s.conns[c].history
  {
  }

  // ---- Reachability ------------------------------------------------------

  ghost predicate Reaches(s: State, s': State) {
    exists steps :: CanRun(s, steps) && Run(s, steps) == s'
  }

  lemma ReachesSelf(s: State)
    ensures Reaches(s, s)
  {
    assert CanRun(s, []) && Run(s, []) == s;
  }

  /** One step, and on from there. */
  lemma StepReaches(s: State, step: Step, s': State)
    requires WellFormed(s) && Enabled(s, step) && Reaches(Apply(s, step), s')
    ensures Reaches(s, s')
  {
    var steps :| CanRun(Apply(s, step), steps) && Run(Apply(s, step), steps) == s';
    assert ([step] + steps)[1..] == steps;
    assert CanRun(s, [step] + steps) && Run(s, [step] + steps) == s';
  }

  lemma {:induction false} RunReaches(s: State, steps: seq<Step>, s': State)
    requires CanRun(s, steps) && Reaches(Run(s, steps), s')
    ensures Reaches(s, s')
    decreases steps
  {
    if steps != [] {
      RunReaches(Apply(s, steps[0]), steps[1..], s');
      StepReaches(s, steps[0], s');
    }
  }

  lemma ReachesOn(s: State, mid: State, s': State)
    requires Reaches(s, mid) && Reaches(mid, s')
    ensures Reaches(s, s')
  {
    var steps :| CanRun(s, steps) && Run(s, steps) == mid;
    RunReaches(s, steps, s');
  }

  // ---- A loop on its own -------------------------------------------------

  /** The step a loop takes when nothing happens outside: no report, no end of file. */
  function Next(s: State, l: nat): Step
    requires l in s.loops
  {
    var p := s.loops[l];
    match p.phase
    case Polling => Step.Poll(l, [])
    case Handling => if p.ready != [] then HandleEvent(l, Data) else StartTasks(l)
    case Running => if p.batch != [] then RunTask(l) else EndTasks(l)
  }

  /** A loop is never stuck. */
  lemma NextEnabled(s: State, l: nat)
    requires Inv(s) && l in s.loops
    ensures WellFormed(s) && Enabled(s, Next(s, l))
  {
    InvWellFormed(s, None);
  }

  /** Only a task changes a connection, and only its own. */
  ghost predicate OnlyByTask(s: State, l: nat, step: Step, s': State)
    requires l in s.loops
  {
    && l in s'.loops && s'.conns.Keys == s.conns.Keys
    && (step.RunTask? ==> s.loops[l].batch != [])
    && forall d :: d in s.conns && !(step.RunTask? && s.loops[l].batch[0].c == d) ==> s'.conns[d] == s.conns[d]
  }

  lemma NextExact(s: State, l: nat)
    requires Inv(s) && WellFormed(s) && l in s.loops && Enabled(s, Next(s, l))
    ensures OnlyByTask(s, l, Next(s, l), Apply(s, Next(s, l)))
  {
    match Next(s, l)
    case RunTask(_) => TaskExact(s, l);
    case HandleEvent(_, _) => HandleQuiet(s, l, Data);
    case _ =>
  }

  /** Where the loop is afterwards. */
  lemma NextPhase(s: State, l: nat)
    requires Inv(s) && WellFormed(s) && l in s.loops && Enabled(s, Next(s, l))
    ensures var p, q := s.loops[l], Apply(s, Next(s, l)).loops;
            l in q &&
            match p.phase
            case Polling => q[l].phase == Handling && q[l].ready == []
            case Handling => if p.ready != [] then q[l].phase == Handling && q[l].ready == p.ready[1..]
                             else q[l].phase == Running && q[l].batch == p.Todo() && q[l].queue == []
            case Running => if p.batch != [] then q[l].phase == Running && q[l].batch == p.batch[1..]
                            else q[l].phase == Polling
  {
    match Next(s, l)
    case RunTask(_) => TaskExact(s, l);
    case HandleEvent(_, _) => HandleQuiet(s, l, Data);
    case _ =>
  }

  // ---- Tasks are run -----------------------------------------------------

  /** How far a loop is from running a task: turns to take, and entries to work off in this one. */
  function Turns(p: Loop, t: Task): nat {
    if t in p.batch then 0
    else match p.phase
         case Handling => 1
         case Polling => 2
         case Running => if p.batch == [] then 3 else 4
  }

  function Entries(p: Loop): nat {
    match p.phase
    case Handling => |p.ready|
    case Polling => 0
    case Running => |p.batch|
  }

  lemma CloserToTask(p: Loop, q: Loop, t: Task)
    requires t in p.Todo() && t in q.Todo() && (p.phase != Running ==> p.batch == [])
    requires match p.phase
             case Polling => q.phase == Handling && q.ready == []
             case Handling => if p.ready != [] then q.phase == Handling && q.ready == p.ready[1..]
                              else q.phase == Running && q.batch == p.Todo()
             case Running => if p.batch != [] then q.phase == Running && q.batch == p.batch[1..] && p.batch[0] != t
                             else q.phase == Polling
    ensures Turns(q, t) < Turns(p, t) || (Turns(q, t) == Turns(p, t) && Entries(q) < Entries(p))
  {
    if p.batch != [] {
      assert t in p.batch ==> t in p.batch[1..] by {
        if t in p.batch {
          var i :| 0 <= i < |p.batch| && p.batch[i] == t;
          assert p.batch[1..][i - 1] == t;
        }
      }
    }
  }

  /** A task that waits on a loop is run by it: its connection lives the event it waits for. */
  lemma {:induction false} RunsTask(s: State, l: nat, t: Task) returns (s': State)
    requires Inv(s) && l in s.loops && t in s.loops[l].Todo()
    ensures Reaches(s, s') && Inv(s') && t.c in s.conns && t.c in s'.conns
    ensures s'.conns[t.c].owner == s.conns[t.c].owner && |s'.conns[t.c].history| == |s.conns[t.c].history| + 1
    decreases Turns(s.loops[l], t), Entries(s.loops[l])
  {
    assert TasksOk(s, l, None);
    assert Due(s, l, t);
    NextEnabled(s, l);
    NextExact(s, l);
    StepKeeps(s, Next(s, l));
    NextPhase(s, l);
    var step := Next(s, l);
    var s1 := Apply(s, step);
    if step.RunTask? && s.loops[l].batch[0] == t {
      TaskExact(s, l);
      ReachesSelf(s1);
      s' := s1;
    } else {
      StillDue(s, l, t, step, s1);
      assert ReadyListOk(s, l);
      CloserToTask(s.loops[l], s1.loops[l], t);
      s' := RunsTask(s1, l, t);
    }
    StepReaches(s, step, s');
  }

  /** Running another task does not touch the connection of t: two tasks due for the same connection are one. */
  lemma StillDue(s: State, l: nat, t: Task, step: Step, s1: State)
    requires Inv(s) && Inv(s1) && l in s.loops && l in s1.loops && Due(s, l, t)
    requires OnlyByTask(s, l, step, s1) && (step.RunTask? ==> s.loops[l].batch[0] != t)
    ensures s1.conns[t.c] == s.conns[t.c] && t in s1.loops[l].Todo()
  {
    if step.RunTask? {
      var u := s.loops[l].batch[0];
      assert TasksOk(s, l, None);
      assert u in s.loops[l].Todo();
      assert Due(s, l, u);
    }
    assert TasksOk(s1, l, None);
    assert Due(s1, l, t);
  }

  // ---- End of file closes ------------------------------------------------

  function TurnsToPoll(p: Loop): nat {
    match p.phase
    case Polling => 0
    case Running => 1
    case Handling => 2
  }

  /** A loop gets back to its poll, and an open connection stays open meanwhile. */
  lemma {:induction false} ReachesPoll(s: State, l: nat, c: nat) returns (s': State)
    requires Inv(s) && l in s.loops && c in s.conns && |s.conns[c].history| == 1
    ensures Reaches(s, s') && Inv(s') && l in s'.loops && s'.loops[l].phase == Polling
    ensures c in s'.conns && s'.conns[c] == s.conns[c]
    decreases TurnsToPoll(s.loops[l]), Entries(s.loops[l])
  {
    if s.loops[l].phase == Polling {
      ReachesSelf(s);
      s' := s;
    } else {
      NextEnabled(s, l);
      NextExact(s, l);
      StepKeeps(s, Next(s, l));
      NextPhase(s, l);
      var step := Next(s, l);
      var s1 := Apply(s, step);
      if step.RunTask? {
        assert TasksOk(s, l, None);
        assert s.loops[l].batch[0] in s.loops[l].Todo();
        assert Due(s, l, s.loops[l].batch[0]);
      }
      s' := ReachesPoll(s1, l, c);
      StepReaches(s, step, s');
    }
  }

  /** The peer of an open connection closes: the kernel may report it readable, and its loop closes it. */
  lemma EndOfFileCloses(s: State, c: nat) returns (s': State)
    requires Inv(s) && c in s.conns && |s.conns[c].history| == 1
    ensures Reaches(s, s') && Inv(s') && c in s'.conns
    ensures s'.conns[c].owner == s.conns[c].owner && |s'.conns[c].history| >= 2
  {
    assert ConnOk(s, c);
    var l := s.conns[c].owner;
    var s1 := ReachesPoll(s, l, c);
    assert ConnOk(s1, c);
    InvWellFormed(s1, None);
    var poll := Step.Poll(l, [(c, 0x1)]);
    ReadableMayBeReported(s1.backend, s1.conns[c].interest);
    PollExact(s1, l, [(c, 0x1)]);
    StepKeeps(s1, poll);
    var s2 := Apply(s1, poll);
    InvWellFormed(s2, None);
    var read := HandleEvent(l, Eof);
    HandleCloses(s2, l);
    StepKeeps(s2, read);
    s' := Apply(s2, read);
    ReachesSelf(s');
    StepReaches(s2, read, s');
    StepReaches(s1, poll, s');
    ReachesOn(s, s1, s');
  }

  // ---- Connections are accepted ------------------------------------------

  function TurnsToHandle(p: Loop): nat {
    match p.phase
    case Handling => 0
    case Polling => 1
    case Running => 2
  }

  /** A loop gets back to handling events. */
  lemma {:induction false} ReachesHandling(s: State, l: nat) returns (s': State)
    requires Inv(s) && l in s.loops
    ensures Reaches(s, s') && Inv(s') && l in s'.loops && s'.loops[l].phase == Handling
    ensures s'.loops.Keys == s.loops.Keys
    decreases TurnsToHandle(s.loops[l]), Entries(s.loops[l])
  {
    if s.loops[l].phase == Handling {
      ReachesSelf(s);
      s' := s;
    } else {
      NextEnabled(s, l);
      NextPhase(s, l);
      SameLoops(s, Next(s, l));
      StepKeeps(s, Next(s, l));
      s' := ReachesHandling(Apply(s, Next(s, l)), l);
      StepReaches(s, Next(s, l), s');
    }
  }

  /** No step adds or removes a loop. */
  lemma SameLoops(s: State, step: Step)
    requires WellFormed(s) && Enabled(s, step)
    ensures Apply(s, step).loops.Keys == s.loops.Keys
  {
  }

  /** From every state a new connection can be accepted on any loop. */
  lemma CanAccept(s: State, owner: nat) returns (s': State, c: nat)
    requires Inv(s) && owner in s.loops
    ensures Reaches(s, s') && Inv(s') && c in s'.conns && s'.conns[c].owner == owner && c in s'.connections
  {
    var mid := ReachesHandling(s, BASE);
    InvWellFormed(mid, None);
    var step := Accept(owner);
    AcceptExact(mid, owner);
    StepKeeps(mid, step);
    s', c := Apply(mid, step), mid.nextId;
    ReachesSelf(s');
    StepReaches(mid, step, s');
    ReachesOn(s, mid, s');
  }

  // ---- Lives are completed -----------------------------------------------

  /** One more event. */
  lemma LivesOn(s: State, c: nat) returns (s': State)
    requires Inv(s) && c in s.conns && |s.conns[c].history| < 4
    ensures Reaches(s, s') && Inv(s') && c in s'.conns
    ensures s'.conns[c].owner == s.conns[c].owner && |s'.conns[c].history| > |s.conns[c].history|
  {
    assert ConnOk(s, c);
    var n := |s.conns[c].history|;
    if n == 1 {
      s' := EndOfFileCloses(s, c);
    } else {
      var t := Awaited(c, n).value;
      var l := Home(t, s.conns[c].owner);
      assert TasksOk(s, l, None);
      assert Due(s, l, t);
      s' := RunsTask(s, l, t);
    }
  }

  lemma {:induction false} LivesToTheEnd(s: State, c: nat) returns (s': State)
    requires Inv(s) && c in s.conns
    ensures Reaches(s, s') && c in s'.conns && s'.conns[c].history == Life(s.conns[c].owner)
    ensures s'.conns[c].owner == s.conns[c].owner
    decreases 4 - |s.conns[c].history|
  {
    assert ConnOk(s, c);
    if |s.conns[c].history| == 4 {
      ReachesSelf(s);
      s' := s;
    } else {
      var mid := LivesOn(s, c);
      assert ConnOk(mid, c);
      s' := LivesToTheEnd(mid, c);
      ReachesOn(s, mid, s');
    }
  }

  /** From every state of every interleaving, with either poller, the life of every connection can be completed:
      its peer closes, and the loops do the rest. */
  lemma LifeCanComplete(backend: Backend, loops: set<nat>, steps: seq<Step>, c: nat) returns (s': State)
    requires BASE in loops && CanRun(Initial(backend, loops), steps)
    requires c in Run(Initial(backend, loops), steps).conns
    ensures Reaches(Run(Initial(backend, loops), steps), s')
    ensures c in s'.conns && s'.conns[c].history == Life(s'.conns[c].owner)
    ensures s'.conns[c].owner == Run(Initial(backend, loops), steps).conns[c].owner
  {
    InitialInv(backend, loops);
    RunKeeps(Initial(backend, loops), steps);
    var s := Run(Initial(backend, loops), steps);
    s' := LivesToTheEnd(s, c);
  }
}
