/** `net/TcpServer.cpp` and the life cycle in `net/TcpConnection.cpp`: a base loop and any number of
    worker loops that pass tasks to each other, as interleaved atomic steps. */
module Server {
  import opened Bytes
  import opened Events
  import opened States

  /** The loop that owns the acceptor and `connections_`. */
  const BASE: nat := 0

  /** Life-cycle callbacks, with the loop that ran them. */
  datatype Event = Established(loop: nat) | Closed(loop: nat) | Removed(loop: nat) | Destroyed(loop: nat)

  /** A connection; `history` records its callbacks in the order they ran. */
  datatype Conn = Conn(owner: nat, state: ConnState, interest: Interest, registered: bool, history: seq<Event>)

  datatype Task = Establish(c: nat) | Remove(c: nat) | Destroy(c: nat)

  /** A channel of the ready list with its `return_events_`. */
  datatype Ready = Ready(c: nat, revents: bv32)

  datatype Phase = Polling | Handling | Running

  /** `ready_channels_` not yet handled, the swapped tasks not yet run, and `task_queue_`. */
  datatype Loop = Loop(phase: Phase, ready: seq<Ready>, batch: seq<Task>, queue: seq<Task>) {
    function Todo(): seq<Task> { batch + queue }
  }

  /** `halfShut` holds the connections for which some thread has passed the test of `shutdown()` and may
      still be about to assign. */
  datatype State = State(
    backend: Backend,
    loops: map<nat, Loop>,
    conns: map<nat, Conn>,
    connections: set<nat>,
    nextId: nat,
    halfShut: set<nat>,
    aborted: bool)

  datatype ReadResult = Data | Eof | Error

  datatype Step =
    | Accept(owner: nat)
    | Poll(l: nat, reports: seq<(nat, bv32)>)
    | HandleEvent(l: nat, result: ReadResult)
    | StartTasks(l: nat)
    | RunTask(l: nat)
    | EndTasks(l: nat)
    | SetWriting(c: nat, on: bool)
    | ShutdownTest(c: nat)
    | ShutdownSet(c: nat)

  // ---- Steps -------------------------------------------------------------

  predicate WellFormed(s: State) {
    && BASE in s.loops
    && (forall c :: c in s.conns ==> s.conns[c].owner in s.loops)
    && (forall l :: l in s.loops ==> forall t :: t in s.loops[l].Todo() ==> t.c in s.conns)
    && (forall l :: l in s.loops ==> forall r :: r in s.loops[l].ready ==> r.c in s.conns)
  }

  /** The kernel reports distinct registered channels of this loop, within their interest. */
  predicate KernelContract(s: State, l: nat, reports: seq<(nat, bv32)>) {
    && (forall i, j :: 0 <= i < j < |reports| ==> reports[i].0 != reports[j].0)
    && (forall i :: 0 <= i < |reports| ==>
          && reports[i].0 in s.conns
          && s.conns[reports[i].0].owner == l
          && s.conns[reports[i].0].registered
          && MayReport(s.backend, s.conns[reports[i].0].interest.Mask(), reports[i].1))
  }

  predicate Enabled(s: State, step: Step)
    requires WellFormed(s)
  {
    !s.aborted &&
    match step
    case Accept(owner) => owner in s.loops && s.loops[BASE].phase == Handling
    case Poll(l, reports) => l in s.loops && s.loops[l].phase == Polling && KernelContract(s, l, reports)
    case HandleEvent(l, _) => l in s.loops && s.loops[l].phase == Handling && s.loops[l].ready != []
    case StartTasks(l) => l in s.loops && s.loops[l].phase == Handling && s.loops[l].ready == []
    case RunTask(l) => l in s.loops && s.loops[l].phase == Running && s.loops[l].batch != []
    case EndTasks(l) => l in s.loops && s.loops[l].phase == Running && s.loops[l].batch == []
    case SetWriting(c, _) => c in s.conns
    case ShutdownTest(c) => c in s.conns && s.conns[c].state == Connected
    case ShutdownSet(c) => c in s.conns && c in s.halfShut
  }

  function Push(s: State, l: nat, t: Task): State
    requires l in s.loops
  {
    s.(loops := s.loops[l := s.loops[l].(queue := s.loops[l].queue + [t])])
  }

  /** `connectionEstablished` on loop l. */
  function DoEstablish(s: State, l: nat, c: nat): State
    requires c in s.conns
  {
    var k := s.conns[c];
    if l != k.owner || k.state != Connecting then s.(aborted := true)
    else s.(conns := s.conns[c := k.(state := Connected, interest := Interest(true, k.interest.write),
                                     registered := true, history := k.history + [Established(l)])])
  }

  /** `handleClose` on loop l, up to its close callback. */
  function DoClose(s: State, l: nat, c: nat): State
    requires WellFormed(s) && c in s.conns && l in s.loops
  {
    var k := s.conns[c];
    if l != k.owner || (k.state != Connected && k.state != Disconnecting) then s.(aborted := true)
    else
      var s' := s.(conns := s.conns[c := k.(state := Disconnected, interest := Interest(false, false),
                                            history := k.history + [Closed(l)])]);
      if l == BASE then DoRemove(s', l, c) else Push(s', BASE, Remove(c))
  }

  /** `removeConnectionInLoop` on loop l. */
  function DoRemove(s: State, l: nat, c: nat): State
    requires c in s.conns && s.conns[c].owner in s.loops
  {
    var k := s.conns[c];
    if l != BASE then s.(aborted := true)
    else
      var s' := s.(connections := s.connections - {c},
                   conns := s.conns[c := k.(history := k.history + [Removed(l)])]);
      Push(s', k.owner, Destroy(c))
  }

  /** `connectionDestroyed` on loop l. */
  function DoDestroy(s: State, l: nat, c: nat): State
    requires c in s.conns
  {
    var k := s.conns[c];
    if l != k.owner then s.(aborted := true)
    else s.(conns := s.conns[c := k.(state := Disconnected, interest := Interest(false, false),
                                     registered := false, history := k.history + [Destroyed(l)])])
  }

  /** The new-connection callback up to the entry in `connections_`. */
  function WithNew(s: State, owner: nat): State {
    var c := s.nextId;
    s.(nextId := c + 1, connections := s.connections + {c},
       conns := s.conns[c := Conn(owner, Connecting, Interest(false, false), false, [])])
  }

  /** The new-connection callback: register, then establish here or by a task on the owner. */
  function DoAccept(s: State, owner: nat): State
    requires owner in s.loops
  {
    if owner == BASE then DoEstablish(WithNew(s, owner), BASE, s.nextId)
    else Push(WithNew(s, owner), owner, Establish(s.nextId))
  }

  function DoTask(s: State, l: nat, t: Task): State
    requires t.c in s.conns && s.conns[t.c].owner in s.loops
  {
    match t
    case Establish(c) => DoEstablish(s, l, c)
    case Remove(c) => DoRemove(s, l, c)
    case Destroy(c) => DoDestroy(s, l, c)
  }

  function Apply(s: State, step: Step): State
    requires WellFormed(s) && Enabled(s, step)
  {
    match step
    case Accept(owner) => DoAccept(s, owner)
    case Poll(l, reports) =>
      var ready := seq(|reports|, i requires 0 <= i < |reports| =>
        Ready(reports[i].0, Returned(s.backend, reports[i].1)));
      s.(loops := s.loops[l := s.loops[l].(phase := Handling, ready := ready)])
    case HandleEvent(l, result) =>
      var r := s.loops[l].ready[0];
      var s' := s.(loops := s.loops[l := s.loops[l].(ready := s.loops[l].ready[1..])]);
      if RunsRead(r.revents) && result == Eof then PopKeepsWellFormed(s, s', l); DoClose(s', l, r.c) else s'
    case StartTasks(l) =>
      s.(loops := s.loops[l := Loop(Running, [], s.loops[l].batch + s.loops[l].queue, [])])
    case RunTask(l) =>
      var t := s.loops[l].batch[0];
      assert t in s.loops[l].Todo();
      DoTask(s.(loops := s.loops[l := s.loops[l].(batch := s.loops[l].batch[1..])]), l, t)
    case EndTasks(l) => s.(loops := s.loops[l := s.loops[l].(phase := Polling)])
    case SetWriting(c, on) =>
      s.(conns := s.conns[c := s.conns[c].(interest := Interest(s.conns[c].interest.read, on), registered := true)])
    case ShutdownTest(c) => s.(halfShut := s.halfShut + {c})
    case ShutdownSet(c) =>
      s.(conns := s.conns[c := s.conns[c].(state := Disconnecting)])
  }

  lemma PopKeepsWellFormed(s: State, s': State, l: nat)
    requires WellFormed(s) && l in s.loops && s.loops[l].ready != []
    requires s' == s.(loops := s.loops[l := s.loops[l].(ready := s.loops[l].ready[1..])])
    ensures WellFormed(s')
  {
    assert s'.loops[l].Todo() == s.loops[l].Todo();
  }

  // ---- The invariant -----------------------------------------------------

  /** The only life a connection can have. */
  function Life(owner: nat): seq<Event> {
    [Established(owner), Closed(owner), Removed(BASE), Destroyed(owner)]
  }

  /** How much of a life is over when the task runs, and the loop it must run on. */
  function Stage(t: Task): nat {
    match t
    case Establish(_) => 0
    case Remove(_) => 2
    case Destroy(_) => 3
  }

  function Home(t: Task, owner: nat): nat {
    if t.Remove? then BASE else owner
  }

  /** The task that a connection at stage n is waiting for. */
  function Awaited(c: nat, n: nat): Option<Task> {
    match n
    case 0 => Some(Establish(c))
    case 2 => Some(Remove(c))
    case 3 => Some(Destroy(c))
    case _ => None
  }

  ghost predicate ConnOk(s: State, c: nat)
    requires c in s.conns
  {
    var k := s.conns[c];
    var n := |k.history|;
    && c < s.nextId
    && k.owner in s.loops
    && n <= 4 && k.history == Life(k.owner)[..n]
    && (n == 0 ==> k.state == Connecting)
    && (n == 1 ==> k.state == Connected || k.state == Disconnecting)
    && (n >= 2 ==> k.state == Disconnected || (k.state == Disconnecting && c in s.halfShut))
    && (1 <= n <= 3 ==> k.registered)
    && k.interest.read == (n == 1)
    && (c in s.connections <==> n < 3)
    && (c in s.halfShut ==> n >= 1)
  }

  /** Task t is due on loop l. */
  ghost predicate Due(s: State, l: nat, t: Task) {
    t.c in s.conns && |s.conns[t.c].history| == Stage(t) && Home(t, s.conns[t.c].owner) == l
  }

  ghost predicate NoDuplicates(ts: seq<Task>) {
    forall i, j :: 0 <= i < j < |ts| ==> ts[i] != ts[j]
  }

  /** A loop holds exactly the tasks due on it, once each, but for the one in hand. */
  ghost predicate TasksOk(s: State, l: nat, hand: Option<Task>)
    requires l in s.loops
  {
    && NoDuplicates(s.loops[l].Todo())
    && (forall t :: t in s.loops[l].Todo() <==> Due(s, l, t) && hand != Some(t))
  }

  ghost predicate ReadyOk(s: State, l: nat, r: Ready) {
    r.c in s.conns && s.conns[r.c].owner == l && (RunsRead(r.revents) ==> |s.conns[r.c].history| == 1)
  }

  /** What waits in the ready list may still be handled as the kernel reported it. */
  ghost predicate ReadyListOk(s: State, l: nat)
    requires l in s.loops
  {
    var p := s.loops[l];
    && (p.phase != Handling ==> p.ready == [])
    && (p.phase != Running ==> p.batch == [])
    && (forall i, j :: 0 <= i < j < |p.ready| ==> p.ready[i].c != p.ready[j].c)
    && (forall r :: r in p.ready ==> ReadyOk(s, l, r))
  }

  /** The invariant while a loop holds the task `hand`. */
  ghost predicate InvWith(s: State, hand: Option<Task>) {
    && !s.aborted
    && BASE in s.loops
    && s.connections <= s.conns.Keys && s.halfShut <= s.conns.Keys
    && (forall c :: c in s.conns ==> ConnOk(s, c))
    && (forall l :: l in s.loops ==> TasksOk(s, l, hand))
    && (forall l :: l in s.loops ==> ReadyListOk(s, l))
  }

  ghost predicate Inv(s: State) {
    InvWith(s, None)
  }

  lemma InvWellFormed(s: State, hand: Option<Task>)
    requires InvWith(s, hand)
    ensures WellFormed(s)
  {
    forall l | l in s.loops
      ensures forall t :: t in s.loops[l].Todo() ==> t.c in s.conns
      ensures forall r :: r in s.loops[l].ready ==> r.c in s.conns
    {
      assert TasksOk(s, l, hand) && ReadyListOk(s, l);
      forall r | r in s.loops[l].ready ensures r.c in s.conns { assert ReadyOk(s, l, r); }
    }
  }

  // ---- Elementary moves --------------------------------------------------

  /** Putting the task in hand on the loop where it is due. */
  lemma PushKeeps(s: State, l: nat, t: Task)
    requires InvWith(s, Some(t)) && l in s.loops && Due(s, l, t)
    ensures Inv(Push(s, l, t))
  {
    var s' := Push(s, l, t);
    forall m | m in s'.loops
      ensures TasksOk(s', m, None)
    {
      assert TasksOk(s, m, Some(t));
      PushedTasks(s, l, t, m);
    }
    forall m | m in s'.loops
      ensures ReadyListOk(s', m)
    {
      assert ReadyListOk(s, m);
      forall r | r in s'.loops[m].ready ensures ReadyOk(s', m, r) { assert ReadyOk(s, m, r); }
    }
    forall c | c in s'.conns ensures ConnOk(s', c) { assert ConnOk(s, c); }
  }

  lemma PushedTasks(s: State, l: nat, t: Task, m: nat)
    requires l in s.loops && m in s.loops && Due(s, l, t) && TasksOk(s, m, Some(t))
    ensures TasksOk(Push(s, l, t), m, None)
  {
    if m == l {
      assert Push(s, l, t).loops[l].Todo() == s.loops[l].Todo() + [t];
    }
  }

  /** The state in which connection c has become k, its history one event longer. */
  function Advanced(s: State, c: nat, k: Conn): State
    requires c in s.conns
  {
    s.(conns := s.conns[c := k],
       connections := if |s.conns[c].history| == 2 then s.connections - {c} else s.connections)
  }

  /** Living one event: the task awaited before is used up, the next one is in hand. */
  lemma AdvanceKeeps(s: State, c: nat, k: Conn)
    requires c in s.conns && InvWith(s, Awaited(c, |s.conns[c].history|))
    requires var n := |s.conns[c].history|;
             && n < 4
             && k.owner == s.conns[c].owner
             && k.history == s.conns[c].history + [Life(k.owner)[n]]
             && k.interest.read == (n == 0)
             && (n == 0 ==> k.state == Connected)
             && (n == 2 ==> k.state == s.conns[c].state)
             && (n == 1 || n == 3 ==> k.state == Disconnected)
             && (n < 3 ==> k.registered)
             && (n == 1 ==> forall r :: r in s.loops[k.owner].ready ==> r.c != c)
    ensures InvWith(Advanced(s, c, k), Awaited(c, |k.history|))
  {
    var n := |s.conns[c].history|;
    var s' := Advanced(s, c, k);
    assert ConnOk(s, c);
    assert Life(k.owner)[..n] + [Life(k.owner)[n]] == Life(k.owner)[..n + 1];
    forall d | d in s'.conns ensures ConnOk(s', d) { assert ConnOk(s, d); }
    forall l | l in s'.loops ensures TasksOk(s', l, Awaited(c, n + 1)) { AdvanceTasks(s, c, k, l); }
    forall l | l in s'.loops
      ensures ReadyListOk(s', l)
    {
      assert ReadyListOk(s, l);
      forall r | r in s'.loops[l].ready ensures ReadyOk(s', l, r) { assert ReadyOk(s, l, r); }
    }
  }

  lemma AdvanceTasks(s: State, c: nat, k: Conn, l: nat)
    requires c in s.conns && l in s.loops && k.owner == s.conns[c].owner
    requires |s.conns[c].history| < 4 && |k.history| == |s.conns[c].history| + 1
    requires TasksOk(s, l, Awaited(c, |s.conns[c].history|))
    ensures TasksOk(Advanced(s, c, k), l, Awaited(c, |k.history|))
  {
    var n, s' := |s.conns[c].history|, Advanced(s, c, k);
    forall t: Task
      ensures Due(s', l, t) && Awaited(c, n + 1) != Some(t) <==> Due(s, l, t) && Awaited(c, n) != Some(t)
    {
    }
  }

  /** Taking the first task of the batch into hand; it is due here. */
  lemma TakeKeeps(s: State, l: nat)
    requires Inv(s) && l in s.loops && s.loops[l].batch != []
    ensures var t := s.loops[l].batch[0];
            var s' := s.(loops := s.loops[l := s.loops[l].(batch := s.loops[l].batch[1..])]);
            InvWith(s', Some(t)) && Due(s', l, t)
  {
    var t := s.loops[l].batch[0];
    var s' := s.(loops := s.loops[l := s.loops[l].(batch := s.loops[l].batch[1..])]);
    var todo := s.loops[l].Todo();
    assert TasksOk(s, l, None);
    assert todo[0] == t && s'.loops[l].Todo() == todo[1..];
    WithoutFirst(todo);
    forall m | m in s'.loops
      ensures TasksOk(s', m, Some(t))
    {
      assert TasksOk(s, m, None);
    }
    forall c | c in s'.conns ensures ConnOk(s', c) { assert ConnOk(s, c); }
    forall m | m in s'.loops
      ensures ReadyListOk(s', m)
    {
      assert ReadyListOk(s, m);
      forall r | r in s'.loops[m].ready ensures ReadyOk(s', m, r) { assert ReadyOk(s, m, r); }
    }
  }

  lemma WithoutFirst(ts: seq<Task>)
    requires NoDuplicates(ts) && ts != []
    ensures NoDuplicates(ts[1..]) && forall t :: t in ts[1..] <==> t in ts && t != ts[0]
  {
    forall t
      ensures t in ts[1..] <==> t in ts && t != ts[0]
    {
      if t in ts && t != ts[0] {
        var i :| 0 <= i < |ts| && ts[i] == t;
        assert ts[1..][i - 1] == t;
      }
    }
  }

  /** A new connection, with the task to establish it in hand. */
  lemma NewKeeps(s: State, owner: nat)
    requires Inv(s) && owner in s.loops
    ensures InvWith(WithNew(s, owner), Some(Establish(s.nextId)))
  {
    var c, s' := s.nextId, WithNew(s, owner);
    assert c !in s.conns;
    forall d | d in s'.conns ensures ConnOk(s', d) { if d != c { assert ConnOk(s, d); } }
    forall l | l in s'.loops
      ensures TasksOk(s', l, Some(Establish(c)))
    {
      assert TasksOk(s, l, None);
    }
    forall l | l in s'.loops
      ensures ReadyListOk(s', l)
    {
      assert ReadyListOk(s, l);
      forall r | r in s'.loops[l].ready ensures ReadyOk(s', l, r) { assert ReadyOk(s, l, r); }
    }
  }

  // ---- Every step keeps the invariant ------------------------------------

  lemma EstablishKeeps(s: State, l: nat, c: nat)
    requires InvWith(s, Some(Establish(c))) && Due(s, l, Establish(c))
    ensures Inv(DoEstablish(s, l, c))
  {
    assert ConnOk(s, c);
    var k := s.conns[c];
    AdvanceKeeps(s, c, k.(state := Connected, interest := Interest(true, k.interest.write),
                          registered := true, history := k.history + [Established(l)]));
  }

  lemma RemoveKeeps(s: State, l: nat, c: nat)
    requires InvWith(s, Some(Remove(c))) && Due(s, l, Remove(c))
    ensures s.conns[c].owner in s.loops && Inv(DoRemove(s, l, c))
  {
    assert ConnOk(s, c);
    var k := s.conns[c];
    var k' := k.(history := k.history + [Removed(l)]);
    AdvanceKeeps(s, c, k');
    PushKeeps(Advanced(s, c, k'), k.owner, Destroy(c));
  }

  lemma DestroyKeeps(s: State, l: nat, c: nat)
    requires InvWith(s, Some(Destroy(c))) && Due(s, l, Destroy(c))
    ensures Inv(DoDestroy(s, l, c))
  {
    assert ConnOk(s, c);
    var k := s.conns[c];
    AdvanceKeeps(s, c, k.(state := Disconnected, interest := Interest(false, false),
                          registered := false, history := k.history + [Destroyed(l)]));
  }

  /** A close on the owning loop, while the connection is open and not in the ready list any more. */
  lemma CloseKeeps(s: State, l: nat, c: nat)
    requires Inv(s) && WellFormed(s) && l in s.loops && c in s.conns
    requires s.conns[c].owner == l && |s.conns[c].history| == 1
    requires forall r :: r in s.loops[l].ready ==> r.c != c
    ensures Inv(DoClose(s, l, c))
  {
    assert ConnOk(s, c);
    var k := s.conns[c];
    var k' := k.(state := Disconnected, interest := Interest(false, false), history := k.history + [Closed(l)]);
    AdvanceKeeps(s, c, k');
    var s' := Advanced(s, c, k');
    assert s' == s.(conns := s.conns[c := k']);
    if l == BASE {
      RemoveKeeps(s', l, c);
    } else {
      PushKeeps(s', BASE, Remove(c));
    }
  }

  /** Changes of loops that leave their tasks. */
  lemma QuietKeeps(s: State, s': State)
    requires Inv(s) && s'.loops.Keys == s.loops.Keys && s' == s.(loops := s'.loops)
    requires forall l :: l in s.loops ==> s'.loops[l].Todo() == s.loops[l].Todo()
    requires forall l :: l in s.loops ==> ReadyListOk(s', l)
    ensures Inv(s')
  {
    forall c | c in s'.conns ensures ConnOk(s', c) { assert ConnOk(s, c); }
    TasksUntouched(s, s');
  }

  /** Loops hold the right tasks after changes that keep their tasks, and the owners and stages of connections. */
  lemma TasksUntouched(s: State, s': State)
    requires Inv(s) && s'.loops.Keys == s.loops.Keys && s'.conns.Keys == s.conns.Keys
    requires forall l :: l in s.loops ==> s'.loops[l].Todo() == s.loops[l].Todo()
    requires forall c :: c in s.conns ==>
               s'.conns[c].owner == s.conns[c].owner && s'.conns[c].history == s.conns[c].history
    ensures forall l :: l in s'.loops ==> TasksOk(s', l, None)
  {
    forall l | l in s'.loops
      ensures TasksOk(s', l, None)
    {
      assert TasksOk(s, l, None);
      assert forall t :: Due(s', l, t) <==> Due(s, l, t);
    }
  }

  /** Handling the first entry of the ready list. */
  lemma HandleKeeps(s: State, l: nat, result: ReadResult)
    requires Inv(s) && WellFormed(s) && Enabled(s, HandleEvent(l, result))
    ensures Inv(Apply(s, HandleEvent(l, result)))
  {
    var r := s.loops[l].ready[0];
    PopReadyKeeps(s, l);
    var s' := s.(loops := s.loops[l := s.loops[l].(ready := s.loops[l].ready[1..])]);
    PopKeepsWellFormed(s, s', l);
    if RunsRead(r.revents) && result == Eof {
      CloseKeeps(s', l, r.c);
    }
  }

  /** Taking the first entry off the ready list: it is the only one of its connection, and still true. */
  lemma PopReadyKeeps(s: State, l: nat)
    requires Inv(s) && l in s.loops && s.loops[l].phase == Handling && s.loops[l].ready != []
    ensures var r := s.loops[l].ready[0];
            var s' := s.(loops := s.loops[l := s.loops[l].(ready := s.loops[l].ready[1..])]);
            Inv(s') && ReadyOk(s', l, r) && forall q :: q in s'.loops[l].ready ==> q.c != r.c
  {
    var ready := s.loops[l].ready;
    var s' := s.(loops := s.loops[l := s.loops[l].(ready := ready[1..])]);
    assert ReadyListOk(s, l) && ReadyOk(s, l, ready[0]);
    ReadyUntouched(s, s');
    assert ReadyListOk(s', l);
    assert s'.loops[l].Todo() == s.loops[l].Todo();
    QuietKeeps(s, s');
  }

  /** The other loops' ready lists do not notice changes that keep owners and stages. */
  lemma ReadyUntouched(s: State, s': State)
    requires Inv(s) && s'.conns.Keys == s.conns.Keys
    requires forall c :: c in s.conns ==>
               s'.conns[c].owner == s.conns[c].owner && s'.conns[c].history == s.conns[c].history
    ensures forall l, r :: ReadyOk(s, l, r) ==> ReadyOk(s', l, r)
    ensures forall l :: l in s.loops && l in s'.loops && s'.loops[l] == s.loops[l] ==> ReadyListOk(s', l)
  {
    forall l | l in s.loops && l in s'.loops && s'.loops[l] == s.loops[l]
      ensures ReadyListOk(s', l)
    {
      assert ReadyListOk(s, l);
    }
  }

  lemma PollKeeps(s: State, l: nat, reports: seq<(nat, bv32)>)
    requires Inv(s) && WellFormed(s) && Enabled(s, Step.Poll(l, reports))
    ensures Inv(Apply(s, Step.Poll(l, reports)))
  {
    var s' := Apply(s, Step.Poll(l, reports));
    assert ReadyListOk(s, l);
    ReadyUntouched(s, s');
    ReportedOk(s, l, reports, s'.loops[l].ready);
    assert ReadyListOk(s', l);
    QuietKeeps(s, s');
  }

  lemma ReportedOk(s: State, l: nat, reports: seq<(nat, bv32)>, ready: seq<Ready>)
    requires Inv(s) && KernelContract(s, l, reports) && |ready| == |reports|
    requires forall i :: 0 <= i < |ready| ==> ready[i] == Ready(reports[i].0, Returned(s.backend, reports[i].1))
    ensures forall r :: r in ready ==> ReadyOk(s, l, r)
  {
    forall i | 0 <= i < |ready|
      ensures ReadyOk(s, l, ready[i])
    {
      var c, raw := reports[i].0, reports[i].1;
      assert ConnOk(s, c);
      if RunsRead(Returned(s.backend, raw)) {
        ReadNeedsInterest(s.backend, s.conns[c].interest, raw);
      }
    }
  }

  lemma AcceptKeeps(s: State, owner: nat)
    requires Inv(s) && WellFormed(s) && Enabled(s, Accept(owner))
    ensures Inv(Apply(s, Accept(owner)))
  {
    NewKeeps(s, owner);
    AcceptedKeeps(WithNew(s, owner), owner, s.nextId);
  }

  lemma AcceptedKeeps(s: State, owner: nat, c: nat)
    requires InvWith(s, Some(Establish(c))) && owner in s.loops && Due(s, owner, Establish(c))
    ensures owner == BASE ==> Inv(DoEstablish(s, BASE, c))
    ensures owner != BASE ==> Inv(Push(s, owner, Establish(c)))
  {
    if owner == BASE {
      EstablishKeeps(s, BASE, c);
    } else {
      PushKeeps(s, owner, Establish(c));
    }
  }

  lemma RunTaskKeeps(s: State, l: nat)
    requires Inv(s) && WellFormed(s) && Enabled(s, RunTask(l))
    ensures Inv(Apply(s, RunTask(l)))
  {
    TakeKeeps(s, l);
    var t := s.loops[l].batch[0];
    var s' := s.(loops := s.loops[l := s.loops[l].(batch := s.loops[l].batch[1..])]);
    match t
    case Establish(c) => EstablishKeeps(s', l, c);
    case Remove(c) => RemoveKeeps(s', l, c);
    case Destroy(c) => DestroyKeeps(s', l, c);
  }

  /** Turning from handling events to running tasks, and back to polling. */
  lemma TurnKeeps(s: State, step: Step)
    requires Inv(s) && WellFormed(s) && Enabled(s, step) && (step.StartTasks? || step.EndTasks?)
    ensures Inv(Apply(s, step))
  {
    var s' := Apply(s, step);
    assert ReadyListOk(s, step.l);
    ReadyUntouched(s, s');
    assert ReadyListOk(s', step.l);
    assert s'.loops[step.l].Todo() == s.loops[step.l].Todo();
    QuietKeeps(s, s');
  }

  /** A connection changes without living an event: write interest, or `shutdown()` from any thread. */
  lemma ConnQuietKeeps(s: State, c: nat, k: Conn)
    requires Inv(s) && c in s.conns && k.owner == s.conns[c].owner && k.history == s.conns[c].history
    requires k.interest.read == s.conns[c].interest.read && (k.registered || k.registered == s.conns[c].registered)
    requires k.state == s.conns[c].state || (k.state == Disconnecting && c in s.halfShut)
    ensures Inv(s.(conns := s.conns[c := k]))
  {
    var s' := s.(conns := s.conns[c := k]);
    ConnStaysOk(s, c, k);
    ReadyUntouched(s, s');
    TasksUntouched(s, s');
  }

  lemma ConnStaysOk(s: State, c: nat, k: Conn)
    requires Inv(s) && c in s.conns && k.owner == s.conns[c].owner && k.history == s.conns[c].history
    requires k.interest.read == s.conns[c].interest.read && (k.registered || k.registered == s.conns[c].registered)
    requires k.state == s.conns[c].state || (k.state == Disconnecting && c in s.halfShut)
    ensures var s' := s.(conns := s.conns[c := k]); forall d :: d in s'.conns ==> ConnOk(s', d)
  {
    var s' := s.(conns := s.conns[c := k]);
    forall d | d in s'.conns ensures ConnOk(s', d) { assert ConnOk(s, d); }
  }

  lemma HalfShutKeeps(s: State, c: nat)
    requires Inv(s) && c in s.conns && s.conns[c].state == Connected
    ensures Inv(s.(halfShut := s.halfShut + {c}))
  {
    var s' := s.(halfShut := s.halfShut + {c});
    ReadyUntouched(s, s');
    forall d | d in s'.conns ensures ConnOk(s', d) { assert ConnOk(s, d); }
    TasksUntouched(s, s');
  }

  lemma OutsideKeeps(s: State, step: Step)
    requires Inv(s) && WellFormed(s) && Enabled(s, step)
    requires step.SetWriting? || step.ShutdownTest? || step.ShutdownSet?
    ensures Inv(Apply(s, step))
  {
    var c := step.c;
    assert ConnOk(s, c);
    match step
    case SetWriting(_, on) =>
      ConnQuietKeeps(s, c, s.conns[c].(interest := Interest(s.conns[c].interest.read, on), registered := true));
    case ShutdownTest(_) => HalfShutKeeps(s, c);
    case ShutdownSet(_) => ConnQuietKeeps(s, c, s.conns[c].(state := Disconnecting));
  }

  lemma StepKeeps(s: State, step: Step)
    requires Inv(s) && WellFormed(s) && Enabled(s, step)
    ensures Inv(Apply(s, step))
  {
    match step
    case Accept(owner) => AcceptKeeps(s, owner);
    case Poll(l, reports) => PollKeeps(s, l, reports);
    case HandleEvent(l, result) => HandleKeeps(s, l, result);
    case RunTask(l) => RunTaskKeeps(s, l);
    case StartTasks(_) => TurnKeeps(s, step);
    case EndTasks(_) => TurnKeeps(s, step);
    case _ => OutsideKeeps(s, step);
  }

  // ---- Runs --------------------------------------------------------------

  function Initial(backend: Backend, loops: set<nat>): State {
    State(backend, map l | l in loops :: Loop(Polling, [], [], []), map[], {}, 1, {}, false)
  }

  /** The steps can be taken one after the other from s. */
  predicate CanRun(s: State, steps: seq<Step>)
    decreases steps
  {
    steps == [] || (WellFormed(s) && Enabled(s, steps[0]) && CanRun(Apply(s, steps[0]), steps[1..]))
  }

  function Run(s: State, steps: seq<Step>): State
    requires CanRun(s, steps)
    decreases steps
  {
    if steps == [] then s else Run(Apply(s, steps[0]), steps[1..])
  }

  /** Every state reached keeps the invariant, so the guard of `CanRun` shuts out no run. */
  lemma {:induction false} RunKeeps(s: State, steps: seq<Step>)
    requires Inv(s) && CanRun(s, steps)
    ensures Inv(Run(s, steps)) && WellFormed(Run(s, steps))
    decreases steps
  {
    if steps == [] {
      InvWellFormed(s, None);
    } else {
      StepKeeps(s, steps[0]);
      RunKeeps(Apply(s, steps[0]), steps[1..]);
    }
  }

  /** Any step enabled behind a run continues it. */
  lemma {:induction false} RunContinues(s: State, steps: seq<Step>, step: Step)
    requires Inv(s) && CanRun(s, steps)
    ensures WellFormed(Run(s, steps)) && (Enabled(Run(s, steps), step) ==> CanRun(s, steps + [step]))
    decreases steps
  {
    RunKeeps(s, steps);
    if steps == [] {
      assert steps + [step] == [step] && [step][1..] == [];
    } else {
      StepKeeps(s, steps[0]);
      InvWellFormed(s, None);
      assert (steps + [step])[1..] == steps[1..] + [step];
      RunContinues(Apply(s, steps[0]), steps[1..], step);
    }
  }

  /** Over every interleaving, with either poller: no abort is reached; every connection lives a prefix of
      established, closed, removed, destroyed, each once and on its loop; `connections_` is exactly
      the accepted connections not yet removed; and what a connection still waits for is queued once. */
  lemma LifeCycle(backend: Backend, loops: set<nat>, steps: seq<Step>, c: nat)
    requires BASE in loops && CanRun(Initial(backend, loops), steps)
    ensures var s := Run(Initial(backend, loops), steps);
            && !s.aborted && WellFormed(s)
            && s.connections == (set d | d in s.conns && Removed(BASE) !in s.conns[d].history)
            && (c in s.conns ==>
                  var k := s.conns[c];
                  && k.owner in s.loops
                  && k.history <= Life(k.owner)
                  && (k.state == Connecting <==> k.history == [])
                  && (k.state == Connected ==> k.history == [Established(k.owner)])
                  && (k.state == Disconnected ==> Closed(k.owner) in k.history)
                  && (k.interest.read <==> k.history == [Established(k.owner)])
                  && forall t: Task, l :: t.c == c && l in s.loops ==>
                       multiset(s.loops[l].Todo())[t]
                         == if Awaited(c, |k.history|) == Some(t) && l == Home(t, k.owner) then 1 else 0)
  {
    InitialInv(backend, loops);
    RunKeeps(Initial(backend, loops), steps);
    var s := Run(Initial(backend, loops), steps);
    MapMeaning(s);
    if c in s.conns {
      StateMeaning(s, c);
      TaskMeaning(s, c);
    }
  }

  /** State and read interest agree with the history. */
  lemma StateMeaning(s: State, c: nat)
    requires Inv(s) && c in s.conns
    ensures var k := s.conns[c];
            && k.owner in s.loops && k.history <= Life(k.owner)
            && (k.state == Connecting <==> k.history == [])
            && (k.state == Connected ==> k.history == [Established(k.owner)])
            && (k.state == Disconnected ==> Closed(k.owner) in k.history)
            && (k.interest.read <==> k.history == [Established(k.owner)])
  {
    assert ConnOk(s, c);
    var k := s.conns[c];
    assert |k.history| >= 2 ==> k.history[1] == Closed(k.owner);
    assert |k.history| == 1 ==> k.history == [Established(k.owner)];
  }

  lemma InitialInv(backend: Backend, loops: set<nat>)
    requires BASE in loops
    ensures Inv(Initial(backend, loops))
  {
  }

  lemma MapMeaning(s: State)
    requires Inv(s)
    ensures s.connections == (set d | d in s.conns && Removed(BASE) !in s.conns[d].history)
  {
    forall d | d in s.conns
      ensures d in s.connections <==> Removed(BASE) !in s.conns[d].history
    {
      assert ConnOk(s, d);
      if |s.conns[d].history| >= 3 { assert s.conns[d].history[2] == Removed(BASE); }
    }
  }

  lemma TaskMeaning(s: State, c: nat)
    requires Inv(s) && c in s.conns
    ensures var k := s.conns[c];
            forall t: Task, l :: t.c == c && l in s.loops ==>
              multiset(s.loops[l].Todo())[t]
                == if Awaited(c, |k.history|) == Some(t) && l == Home(t, k.owner) then 1 else 0
  {
    forall t: Task, l | t.c == c && l in s.loops
      ensures multiset(s.loops[l].Todo())[t]
           == if Awaited(c, |s.conns[c].history|) == Some(t) && l == Home(t, s.conns[c].owner) then 1 else 0
    {
      CountTask(s, t, l);
    }
  }

  lemma CountTask(s: State, t: Task, l: nat)
    requires Inv(s) && t.c in s.conns && l in s.loops
    ensures var k := s.conns[t.c];
            multiset(s.loops[l].Todo())[t]
              == if Awaited(t.c, |k.history|) == Some(t) && l == Home(t, k.owner) then 1 else 0
  {
    assert TasksOk(s, l, None);
    CountOnce(s.loops[l].Todo(), t);
  }

  lemma {:induction false} CountOnce(ts: seq<Task>, t: Task)
    requires NoDuplicates(ts)
    ensures multiset(ts)[t] == if t in ts then 1 else 0
  {
    if ts != [] {
      CountOnce(ts[1..], t);
      assert ts == [ts[0]] + ts[1..];
      assert t in ts <==> t == ts[0] || t in ts[1..];
    }
  }

  /** Whenever a read callback is about to run, its connection is open, interested in reading and on its loop:
      so `handleClose` cannot abort, and it runs at most once. */
  lemma ReadCallbackOnlyWhenOpen(backend: Backend, loops: set<nat>, steps: seq<Step>, l: nat)
    requires BASE in loops && CanRun(Initial(backend, loops), steps)
    ensures var s := Run(Initial(backend, loops), steps);
            l in s.loops && s.loops[l].ready != [] && RunsRead(s.loops[l].ready[0].revents) ==>
              var c := s.loops[l].ready[0].c;
              && c in s.conns
              && s.conns[c].owner == l
              && s.conns[c].interest.read
              && s.conns[c].history == [Established(l)]
              && (s.conns[c].state == Connected || s.conns[c].state == Disconnecting)
  {
    InitialInv(backend, loops);
    RunKeeps(Initial(backend, loops), steps);
    var s := Run(Initial(backend, loops), steps);
    if l in s.loops && s.loops[l].ready != [] && RunsRead(s.loops[l].ready[0].revents) {
      assert ReadyListOk(s, l);
      assert ReadyOk(s, l, s.loops[l].ready[0]);
      assert ConnOk(s, s.loops[l].ready[0].c);
    }
  }

  /** Once no task is left anywhere, every connection is open or its life is complete. */
  lemma Quiescent(backend: Backend, loops: set<nat>, steps: seq<Step>, c: nat)
    requires BASE in loops && CanRun(Initial(backend, loops), steps)
    requires var s := Run(Initial(backend, loops), steps);
             c in s.conns && forall l :: l in s.loops ==> s.loops[l].Todo() == []
    ensures var k := Run(Initial(backend, loops), steps).conns[c];
            k.history == [Established(k.owner)] || k.history == Life(k.owner)
  {
    InitialInv(backend, loops);
    RunKeeps(Initial(backend, loops), steps);
    NothingAwaited(Run(Initial(backend, loops), steps), c);
  }

  lemma NothingAwaited(s: State, c: nat)
    requires Inv(s) && c in s.conns && forall l :: l in s.loops ==> s.loops[l].Todo() == []
    ensures var k := s.conns[c]; k.history == [Established(k.owner)] || k.history == Life(k.owner)
  {
    assert ConnOk(s, c);
    var k := s.conns[c];
    assert TasksOk(s, k.owner, None) && TasksOk(s, BASE, None);
    assert !Due(s, k.owner, Establish(c)) && !Due(s, BASE, Remove(c)) && !Due(s, k.owner, Destroy(c));
  }
}
