/** `net/TimerQueue.cpp` and `net/Timer.cpp`: a heap with lazy deletion, a map of live timers and a
    timerfd, proved to behave as the eager timers. */
module TimerQueue {
  import opened Bytes
  import opened Entries
  import opened EagerTimers

  const NS_PER_S: int := 1_000_000_000

  // ---- The timerfd -------------------------------------------------------

  /** `duration_cast` to seconds truncates toward zero. */
  function Seconds(at: int): int {
    if at >= 0 then at / NS_PER_S else -(-at / NS_PER_S)
  }

  function Nanoseconds(at: int): int {
    at - Seconds(at) * NS_PER_S
  }

  /** What a timerfd can be set to: nothing, or a time after the epoch. */
  type Setting = a: Option<int> | a.Some? ==> a.value > 0 witness None

  /** `timerfd_settime` with an absolute time: invalid fields are refused, the zero time disarms. */
  function SetTime(armed: Setting, sec: int, nsec: int): Setting {
    if sec < 0 || nsec < 0 || nsec >= NS_PER_S then armed
    else if sec == 0 && nsec == 0 then None
    else Some(sec * NS_PER_S + nsec)
  }

  /** `resetTimerFd_`. */
  function Reset(heap: seq<Entry>, armed: Setting): Setting {
    if heap == [] then SetTime(armed, 0, 0)
    else SetTime(armed, Seconds(heap[0].at), Nanoseconds(heap[0].at))
  }

  /** The split loses nothing; the fd ends up armed at the given time exactly for times after the epoch. */
  lemma SplitArms(at: int)
    ensures Seconds(at) * 1_000_000_000 + Nanoseconds(at) == at && -1_000_000_000 < Nanoseconds(at) < 1_000_000_000
    ensures at < 0 ==> Nanoseconds(at) <= 0
    ensures at >= 0 <==> Seconds(at) >= 0 && 0 <= Nanoseconds(at) < NS_PER_S
    ensures Seconds(at) == 0 == Nanoseconds(at) <==> at == 0
    ensures (forall before: Setting :: SetTime(before, Seconds(at), Nanoseconds(at)) == Some(at)) <==> at > 0
  {
    if at <= 0 {
      assert SetTime(None, Seconds(at), Nanoseconds(at)) != Some(at);
    }
  }

  ghost predicate AllPositive(heap: seq<Entry>) {
    forall x :: x in heap ==> x.at > 0
  }

  /** Armed at the earliest entry, or disarmed when there is none. */
  ghost predicate ArmedAtTop(heap: seq<Entry>, armed: Setting) {
    armed == if heap == [] then None else Some(heap[0].at)
  }

  lemma ResetArms(heap: seq<Entry>, armed: Setting)
    requires AllPositive(heap)
    ensures ArmedAtTop(heap, Reset(heap, armed))
  {
    if heap != [] {
      assert heap[0] in heap;
      SplitArms(heap[0].at);
    }
  }

  // ---- Heap and map ------------------------------------------------------

  /** Between heap and unprocessed batch every sequence number has at most one entry; each live timer but
      the one being fired has one, at its deadline; and entries belong to timers inserted some time. */
  ghost predicate Consistent(heap: seq<Entry>, batch: seq<Entry>, t: Timers, firing: Option<nat>) {
    && t.Valid()
    && StrictlySorted(heap) && StrictlySorted(batch)
    && (forall x :: x in heap ==> x !in batch)
    && (forall x, y :: (x in heap || x in batch) && (y in heap || y in batch) && x.id == y.id ==> x == y)
    && (forall x :: x in heap || x in batch ==> EntryOk(t, x) && firing != Some(x.id))
    && (forall s :: s in t.live && firing != Some(s) ==>
          Entry(t.live[s].deadline, s) in heap || Entry(t.live[s].deadline, s) in batch)
    && (firing.Some? ==> firing.value < t.next && firing.value !in t.inFlight)
  }

  ghost predicate EntryOk(t: Timers, x: Entry) {
    x.id < t.next && x.id !in t.inFlight && (x.id in t.live ==> t.live[x.id].deadline == x.at)
  }

  /** Inserting timer s, which has no entry yet. */
  lemma InsertKeeps(heap: seq<Entry>, batch: seq<Entry>, t: Timers, firing: Option<nat>, s: nat, timer: Timer)
    requires Consistent(heap, batch, t, firing)
    requires s !in t.live && s < t.next && s !in t.inFlight && firing != Some(s)
    requires forall x :: x in heap || x in batch ==> x.id != s
    ensures Consistent(Insert(heap, Entry(timer.deadline, s)), batch, t.(live := t.live[s := timer]), firing)
  {
    InsertSorted(heap, Entry(timer.deadline, s));
  }

  /** Heap and fd after an insertion, which resets the fd when the new entry is among the earliest. */
  function Enqueued(heap: seq<Entry>, armed: Setting, x: Entry): (seq<Entry>, Setting) {
    var heap' := Insert(heap, x);
    (heap', if x.at == heap'[0].at then Reset(heap', armed) else armed)
  }

  /** That keeps it armed at the top. */
  lemma InsertArms(heap: seq<Entry>, x: Entry, armed: Setting)
    requires AllPositive(heap) ==> ArmedAtTop(heap, armed)
    ensures var (heap', armed') := Enqueued(heap, armed, x);
            AllPositive(heap') ==> ArmedAtTop(heap', armed')
  {
    var heap' := Insert(heap, x);
    assert heap'[0] == x || (heap != [] && heap'[0] == heap[0]);
    if AllPositive(heap') {
      ResetArms(heap', armed);
    }
  }

  function EnqueuedAll(heap: seq<Entry>, armed: Setting, xs: seq<Entry>): (seq<Entry>, Setting)
    decreases xs
  {
    if xs == [] then (heap, armed)
    else
      var (heap', armed') := Enqueued(heap, armed, xs[0]);
      EnqueuedAll(heap', armed', xs[1..])
  }

  /** While an entry at or before the epoch is on top, no insertion arms the fd, whatever its deadline: it stays
      as it was, or is disarmed. */
  lemma {:induction false} EpochStrands(heap: seq<Entry>, armed: Setting, xs: seq<Entry>)
    requires heap != [] && heap[0].at <= 0
    ensures var (heap', armed') := EnqueuedAll(heap, armed, xs);
            heap' != [] && heap'[0].at <= 0 && (armed' == armed || armed' == None)
    decreases xs
  {
    if xs != [] {
      var (heap', armed') := Enqueued(heap, armed, xs[0]);
      assert heap'[0].at <= 0 && (armed' == armed || armed' == None);
      EpochStrands(heap', armed', xs[1..]);
    }
  }

  lemma InsertSticks(heap: seq<Entry>, x: Entry)
    ensures (if heap == [] then x.at else heap[0].at) <= 0 ==>
              Insert(heap, x)[0].at <= 0 && Enqueued(heap, None, x).1 == None
  {
  }

  /** Armed at the top, in a state where that holds for deadlines after the epoch, means just that all are. */
  lemma ArmedIff(heap: seq<Entry>, armed: Setting)
    requires StrictlySorted(heap) && (AllPositive(heap) ==> ArmedAtTop(heap, armed))
    ensures ArmedAtTop(heap, armed) <==> AllPositive(heap)
    ensures armed == None && heap != [] ==> heap[0].at <= 0
  {
    if heap != [] && heap[0].at > 0 {
      forall x | x in heap
        ensures x.at > 0
      {
        HeadIsLeast(heap, x);
      }
    }
    if ArmedAtTop(heap, armed) {
      forall x | x in heap
        ensures x.at > 0
      {
        HeadIsLeast(heap, x);
      }
    }
  }

  /** Changes that take live timers away or construct new ones elsewhere. */
  lemma DropKeeps(heap: seq<Entry>, batch: seq<Entry>, t: Timers, firing: Option<nat>, t': Timers)
    requires Consistent(heap, batch, t, firing) && t'.Valid() && t'.next >= t.next
    requires forall s :: s in t'.live ==> s in t.live && t'.live[s] == t.live[s]
    requires forall s :: s in t'.inFlight ==> s in t.inFlight || s >= t.next
    ensures Consistent(heap, batch, t', firing)
  {
  }

  /** Taking the first entry of the batch: its timer, if alive, is the one being fired. */
  lemma TakeKeeps(heap: seq<Entry>, batch: seq<Entry>, t: Timers)
    requires Consistent(heap, batch, t, None) && batch != []
    ensures Consistent(heap, batch[1..], t, Some(batch[0].id))
  {
    forall x
      ensures x in batch[1..] <==> x in batch && x != batch[0]
    {
      TailMembers(batch, x);
    }
    assert batch[0] in batch;
  }

  /** The fired timer is gone, or back in the heap with its new deadline. */
  lemma FinishKeeps(heap: seq<Entry>, batch: seq<Entry>, t: Timers, s: nat, clock: int)
    requires Consistent(heap, batch, t, Some(s))
    ensures s in t.live && t.live[s].interval > 0 ==>
              var t' := Finish(t, s, clock);
              Consistent(Insert(heap, Entry(t'.live[s].deadline, s)), batch, t', None)
    ensures !(s in t.live && t.live[s].interval > 0) ==> Consistent(heap, batch, Finish(t, s, clock), None)
  {
    var t' := Finish(t, s, clock);
    assert t'.Valid();
    if s in t.live && t.live[s].interval > 0 {
      var x := Entry(t'.live[s].deadline, s);
      assert x !in heap && x !in batch;
      InsertSorted(heap, x);
    }
  }

  /** Splitting the due entries off the heap. */
  lemma PopKeeps(heap: seq<Entry>, t: Timers, k: nat)
    requires Consistent(heap, [], t, None) && k <= |heap|
    ensures Consistent(heap[k..], heap[..k], t, None)
  {
    forall x
      ensures x in heap <==> x in heap[..k] || x in heap[k..]
    {
      assert heap == heap[..k] + heap[k..];
    }
  }

  /** The due entries on the heap, without the stale ones, are exactly the live timers due. */
  lemma DueEntries(heap: seq<Entry>, t: Timers, k: nat, now: int)
    requires Consistent(heap, [], t, None) && k <= |heap|
    requires forall i :: 0 <= i < k ==> heap[i].at <= now
    requires forall i :: k <= i < |heap| ==> heap[i].at > now
    ensures OfLive(heap[..k], t.live) == Sorted(DueSet(t, now))
  {
    var due := OfLive(heap[..k], t.live);
    OfLiveSorted(heap[..k], t.live);
    forall x
      ensures x in due <==> x in DueSet(t, now)
    {
      if x in due {
        assert x in heap && EntryOk(t, x) && x == Entry(t.live[x.id].deadline, x.id);
      }
      if x in DueSet(t, now) {
        assert x in heap;
        var i :| 0 <= i < |heap| && heap[i] == x;
        assert heap[..k][i] == x;
      }
    }
    SortedUnique(due, Sorted(DueSet(t, now)));
  }

  lemma SuffixSorted(es: seq<Entry>, k: nat)
    requires StrictlySorted(es) && k <= |es|
    ensures StrictlySorted(es[k..])
  {
  }

  /** While all deadlines are after the epoch, no live timer is forgotten by the fd. */
  lemma NotStranded(heap: seq<Entry>, t: Timers, armed: Setting, s: nat)
    requires Consistent(heap, [], t, None) && AllPositive(heap) && ArmedAtTop(heap, armed) && s in t.live
    ensures armed.Some? && armed.value <= t.live[s].deadline
  {
    HeadIsLeast(heap, Entry(t.live[s].deadline, s));
  }

  class TimerQueue {
    var heap: seq<Entry>            // timer_queue_, as the sequence of its pops
    var timers: map<nat, Timer>     // timers_
    var armed: Setting          // the timerfd's setting
    var inFlight: map<nat, Timer>   // insertions queued by other threads
    var counter: nat                // Timer::counter_

    /** What the users see. */
    function View(): Timers
      reads this
    {
      Timers(timers, inFlight, counter)
    }

    ghost predicate Valid()
      reads this
    {
      Consistent(heap, [], View(), None) && TopArmed()
    }

    /** With deadlines after the epoch the fd is armed at the top. */
    ghost predicate TopArmed()
      reads this
    {
      AllPositive(heap) ==> ArmedAtTop(heap, armed)
    }

    /** All deadlines stored or on their way are after the epoch. */
    ghost predicate Positive()
      reads this
    {
      AllPositive(heap) && forall s :: s in inFlight ==> inFlight[s].deadline > 0
    }

    /** Disarmed, with an entry at or before the epoch on top. */
    ghost predicate Stuck()
      reads this
    {
      armed == None && heap != [] && heap[0].at <= 0
    }

    /** Stuck, or about to be by an insertion at such a time. */
    ghost predicate StuckBy(at: int)
      reads this
    {
      Stuck() || (armed == None && heap == [] && at <= 0)
    }

    constructor ()
      ensures Valid() && Positive() && View() == Timers(map[], map[], 0)
    {
      heap, timers, armed, inFlight, counter := [], map[], None, map[], 0;
    }

    method ResetTimerFd()
      modifies this`armed
      ensures armed == Reset(heap, old(armed))
    {
      if heap == [] {
        armed := SetTime(armed, 0, 0);
      } else {
        var earliest := heap[0].at;
        armed := SetTime(armed, Seconds(earliest), Nanoseconds(earliest));
      }
    }

    /** The insertion that `addTimer` runs on the loop thread, during a pass or outside. */
    method InsertInLoop(s: nat, timer: Timer, ghost batch: seq<Entry>, ghost firing: Option<nat>)
      requires Consistent(heap, batch, View(), firing)
      requires s !in timers && s < counter && firing != Some(s) && s !in inFlight
      requires forall x :: x in heap || x in batch ==> x.id != s
      modifies this`heap, this`timers, this`armed
      ensures timers == old(timers)[s := timer]
      ensures Consistent(heap, batch, View(), firing)
      ensures old(TopArmed()) ==> TopArmed()
      ensures old(Positive()) && timer.deadline > 0 ==> Positive()
      ensures old(StuckBy(timer.deadline)) ==> Stuck()
    {
      InsertKeeps(heap, batch, View(), firing, s, timer);
      if TopArmed() {
        InsertArms(heap, Entry(timer.deadline, s), armed);
      }
      InsertSticks(heap, Entry(timer.deadline, s));
      timers := timers[s := timer];
      Enqueue(Entry(timer.deadline, s));
    }

    /** The heap part of the insertion. */
    method Enqueue(x: Entry)
      modifies this`heap, this`armed
      ensures (heap, armed) == Enqueued(old(heap), old(armed), x)
    {
      heap := Insert(heap, x);
      if x.at == heap[0].at {
        ResetTimerFd();
      }
    }

    /** `addTimer` on the loop thread. */
    method AddTimer(at: int, interval: int, ghost batch: seq<Entry>, ghost firing: Option<nat>) returns (id: nat)
      requires Consistent(heap, batch, View(), firing)
      modifies this
      ensures View() == Act(old(View()), Add(at, interval)) && id == old(counter)
      ensures Consistent(heap, batch, View(), firing)
      ensures old(TopArmed()) ==> TopArmed()
      ensures old(Positive()) && at > 0 ==> Positive()
      ensures old(StuckBy(at)) ==> Stuck()
    {
      id := counter;
      counter := counter + 1;
      DropKeeps(heap, batch, old(View()), firing, View());
      InsertInLoop(id, Timer(at, interval), batch, firing);
    }

    /** `addTimer` on another thread: the timer gets its number, its insertion is queued. */
    method AddTimerElsewhere(at: int, interval: int, ghost batch: seq<Entry>, ghost firing: Option<nat>)
        returns (id: nat)
      requires Consistent(heap, batch, View(), firing)
      modifies this`counter, this`inFlight
      ensures View() == Act(old(View()), Construct(at, interval)) && id == old(counter)
      ensures old(Positive()) && at > 0 ==> Positive()
      ensures Consistent(heap, batch, View(), firing)
    {
      id := counter;
      counter := counter + 1;
      inFlight := inFlight[id := Timer(at, interval)];
      DropKeeps(heap, batch, old(View()), firing, View());
    }

    /** The queued insertion of another thread runs. */
    method InsertQueued(s: nat)
      requires Valid()
      modifies this
      ensures Valid() && View() == DoInsert(old(View()), s)
      ensures old(Positive()) ==> Positive()
      ensures old(Stuck()) ==> Stuck()
    {
      if s in inFlight {
        var timer := inFlight[s];
        inFlight := inFlight - {s};
        DropKeeps(heap, [], old(View()), None, View());
        InsertInLoop(s, timer, [], None);
      }
    }

    method CancelTimer(s: nat, ghost batch: seq<Entry>, ghost firing: Option<nat>)
      requires Consistent(heap, batch, View(), firing)
      modifies this`timers
      ensures View() == Act(old(View()), Cancel(s))
      ensures Consistent(heap, batch, View(), firing)
    {
      if s in timers {
        timers := timers - {s};
      }
      assert timers == old(timers) - {s};
      DropKeeps(heap, batch, old(View()), firing, View());
    }

    method Perform(a: Action, ghost batch: seq<Entry>, ghost firing: Option<nat>)
      requires Consistent(heap, batch, View(), firing)
      modifies this
      ensures View() == Act(old(View()), a)
      ensures Consistent(heap, batch, View(), firing)
      ensures old(TopArmed()) ==> TopArmed()
      ensures old(Positive()) && PositiveAction(a) ==> Positive()
      ensures old(if a.Add? then StuckBy(a.at) else Stuck()) ==> Stuck()
    {
      match a
      case Add(at, interval) => var _ := AddTimer(at, interval, batch, firing);
      case Construct(at, interval) => var _ := AddTimerElsewhere(at, interval, batch, firing);
      case Cancel(s) => CancelTimer(s, batch, firing);
    }

    /** A callback: any actions, one after the other. */
    method RunCallback(actions: seq<Action>, ghost batch: seq<Entry>, ghost firing: Option<nat>)
      requires Consistent(heap, batch, View(), firing)
      modifies this
      ensures View() == ActAll(old(View()), actions)
      ensures old(Positive()) && (forall i :: 0 <= i < |actions| ==> PositiveAction(actions[i])) ==> Positive()
      ensures Consistent(heap, batch, View(), firing)
    {
      var k := 0;
      assert actions[0..] == actions;
      while k < |actions|
        invariant k <= |actions|
        invariant Consistent(heap, batch, View(), firing)
        invariant ActAll(old(View()), actions) == ActAll(View(), actions[k..])
        invariant old(Positive()) && (forall i :: 0 <= i < |actions| ==> PositiveAction(actions[i])) ==> Positive()
      {
        assert actions[k..][0] == actions[k] && actions[k..][1..] == actions[k + 1..];
        Perform(actions[k], batch, firing);
        k := k + 1;
      }
    }

    /** Pops everything due. */
    method GetExpiredTimers(now: int) returns (expired: seq<Entry>)
      requires Consistent(heap, [], View(), None)
      modifies this`heap
      ensures expired + heap == old(heap)
      ensures forall x :: x in expired ==> x.at <= now
      ensures forall x :: x in heap ==> x.at > now
    {
      expired := [];
      while heap != [] && heap[0].at <= now
        invariant |expired| <= |old(heap)| && expired == old(heap)[..|expired|] && heap == old(heap)[|expired|..]
        invariant forall x :: x in expired ==> x.at <= now
        decreases |heap|
      {
        expired := expired + [heap[0]];
        heap := heap[1..];
      }
      SuffixSorted(old(heap), |expired|);
      forall x | x in heap
        ensures x.at > now
      {
        HeadIsLeast(heap, x);
      }
    }

    /** One live entry of the batch: its callback, and what follows it. */
    method FireOne(x: Entry, turn: Turn, ghost rest: seq<Entry>)
      requires Consistent(heap, rest, View(), Some(x.id))
      modifies this
      ensures View() == Finish(ActAll(old(View()), turn.actions), x.id, turn.clock)
      ensures old(Positive()) && PositiveTurn(turn) ==> Positive()
      ensures Consistent(heap, rest, View(), None)
    {
      RunCallback(turn.actions, rest, Some(x.id));
      Conclude(x.id, turn.clock, rest);
    }

    /** After the callback: a timer still there is restarted and queued again, or erased. */
    method Conclude(s: nat, clock: int, ghost rest: seq<Entry>)
      requires Consistent(heap, rest, View(), Some(s))
      modifies this`heap, this`timers
      ensures View() == Finish(old(View()), s, clock)
      ensures old(Positive()) && clock >= 0 ==> Positive()
      ensures Consistent(heap, rest, View(), None)
    {
      FinishKeeps(heap, rest, View(), s, clock);
      if s in timers {
        if timers[s].interval > 0 {
          var again := clock + timers[s].interval * NS_PER_MS;
          timers := timers[s := timers[s].(deadline := again)];
          heap := Insert(heap, Entry(again, s));
        } else {
          timers := timers - {s};
        }
      }
    }

    /** One turn of the loop over the popped entries. */
    method FireNext(x: Entry, turn: Turn, ghost batch: seq<Entry>) returns (alive: bool)
      requires batch != [] && x == batch[0] && Consistent(heap, batch, View(), None)
      modifies this
      ensures Consistent(heap, batch[1..], View(), None)
      ensures alive == (x.id in old(timers))
      ensures View() == if alive then Finish(ActAll(old(View()), turn.actions), x.id, turn.clock) else old(View())
      ensures old(Positive()) && PositiveTurn(turn) ==> Positive()
    {
      TakeKeeps(heap, batch, View());
      alive := x.id in timers;
      if alive {
        FireOne(x, turn, batch[1..]);
      } else {
        ForgetFiring(heap, batch[1..], View(), x.id);
      }
    }

    /** The loop over the popped entries. */
    method FireBatch(expired: seq<Entry>, now: int, script: seq<Turn>) returns (fired: seq<Entry>)
      requires Consistent(heap, expired, View(), None)
      modifies this
      ensures Consistent(heap, [], View(), None)
      ensures View() == Fire(old(View()), expired, now, script).0
      ensures fired == Fire(old(View()), expired, now, script).1
      ensures old(Positive()) && PositiveCommand(Expire(now, script)) ==> Positive()
    {
      ghost var all := Fire(View(), expired, now, script);
      fired := [];
      var k, turns := 0, script;
      ghost var rest := expired;
      while k < |expired|
        invariant k <= |expired| && rest == expired[k..]
        invariant Consistent(heap, rest, View(), None)
        invariant all.0 == Fire(View(), rest, now, turns).0
        invariant all.1 == fired + Fire(View(), rest, now, turns).1
        invariant PositiveCommand(Expire(now, script)) ==> PositiveCommand(Expire(now, turns))
        invariant old(Positive()) && PositiveCommand(Expire(now, script)) ==> Positive()
      {
        var x := expired[k];
        assert rest[0] == x;
        FireTurn(View(), rest, now, turns, fired);
        if PositiveCommand(Expire(now, turns)) { PositiveRest(now, turns); }
        var alive := FireNext(x, FirstTurn(turns, now), rest);
        if alive {
          fired := fired + [x];
          turns := Rest(turns);
        }
        k := k + 1;
        rest := rest[1..];
      }
    }

    /** `handleExpiredTimers_`: one pass over the due entries, whatever the callbacks do; nothing if the
        timerfd could not be read. An fd that could has expired, and is disarmed until it is set again. */
    method HandleExpiredTimers(readable: bool, now: int, script: seq<Turn>) returns (fired: seq<Entry>)
      requires Valid()
      modifies this
      ensures Valid()
      ensures View() == if readable then Step(old(View()), Expire(now, script)).0 else old(View())
      ensures fired == if readable then Step(old(View()), Expire(now, script)).1 else []
      ensures old(Positive()) && PositiveCommand(Expire(now, script)) ==> Positive()
    {
      if !readable {
        return [];
      }
      armed := None;
      ghost var t0, h0 := View(), heap;
      var expired := GetExpiredTimers(now);
      PassOverDue(h0, expired, heap, t0, now, script);
      fired := FireBatch(expired, now, script);
      ghost var left := armed;
      ResetTimerFd();
      if AllPositive(heap) { ResetArms(heap, left); }
    }

    method Execute(c: Command) returns (fired: seq<Entry>)
      requires Valid()
      modifies this
      ensures Valid() && View() == Step(old(View()), c).0 && fired == Step(old(View()), c).1
      ensures old(Positive()) && PositiveCommand(c) ==> Positive()
      ensures !c.Expire? && old(if c.Do? && c.action.Add? then StuckBy(c.action.at) else Stuck()) ==>
                Stuck() && fired == []
    {
      fired := [];
      match c
      case Do(a) => Perform(a, [], None);
      case InsertQueued(s) => InsertQueued(s);
      case Expire(now, script) => fired := HandleExpiredTimers(true, now, script);
    }

    /** Every run of the queue is a run of the eager timers; it ends armed at the earliest entry exactly when
        all entries are after the epoch, as they are when all deadlines given are. */
    method ExecuteAll(cs: seq<Command>) returns (fired: seq<Entry>)
      requires Valid()
      modifies this
      ensures Valid() && View() == Run(old(View()), cs).0 && fired == Run(old(View()), cs).1
      ensures ArmedAtTop(heap, armed) <==> AllPositive(heap)
      ensures old(Positive()) && (forall i :: 0 <= i < |cs| ==> PositiveCommand(cs[i])) ==> AllPositive(heap)
    {
      fired := ExecuteEach(cs);
      ArmedIff(heap, armed);
    }

    /** A run in which the kernel lets an expiry pass begin only when the time the fd is set to has come. A queue
        that is stuck, or becomes so by its first timer, never fires anything. */
    method ExecuteTimed(cs: seq<Command>) returns (fired: seq<Entry>)
      requires Valid()
      modifies this
      ensures Valid()
      ensures old(Stuck()) ==> Stuck() && fired == []
      ensures cs != [] && cs[0].Do? && cs[0].action.Add? && old(StuckBy(cs[0].action.at)) ==> Stuck() && fired == []
    {
      fired := [];
      var k := 0;
      while k < |cs|
        invariant k <= |cs| && Valid()
        invariant old(Stuck()) ==> Stuck() && fired == []
        invariant k > 0 && cs[0].Do? && cs[0].action.Add? && old(StuckBy(cs[0].action.at)) ==> Stuck() && fired == []
        invariant k == 0 ==> fired == [] && forall at :: old(StuckBy(at)) ==> StuckBy(at)
      {
        if !cs[k].Expire? || (armed.Some? && armed.value <= cs[k].now) {
          var now := Execute(cs[k]);
          fired := fired + now;
        }
        k := k + 1;
      }
    }

    method ExecuteEach(cs: seq<Command>) returns (fired: seq<Entry>)
      requires Valid()
      modifies this
      ensures Valid() && View() == Run(old(View()), cs).0 && fired == Run(old(View()), cs).1
      ensures old(Positive()) && (forall i :: 0 <= i < |cs| ==> PositiveCommand(cs[i])) ==> Positive()
    {
      fired := [];
      var k := 0;
      ghost var all, rest := Run(View(), cs), cs;
      while k < |cs|
        invariant k <= |cs| && Valid() && rest == cs[k..]
        invariant all.0 == Run(View(), rest).0 && all.1 == fired + Run(View(), rest).1
        invariant old(Positive()) && (forall i :: 0 <= i < |cs| ==> PositiveCommand(cs[i])) ==> Positive()
      {
        assert rest[0] == cs[k];
        RunTurn(View(), rest, fired);
        var now := Execute(cs[k]);
        fired := fired + now;
        k := k + 1;
        rest := rest[1..];
      }
    }
  }

  /** A pass over all due entries of the heap is the eager pass over the live timers due. */
  lemma PassOverDue(h0: seq<Entry>, expired: seq<Entry>, heap: seq<Entry>, t: Timers, now: int, script: seq<Turn>)
    requires Consistent(h0, [], t, None) && expired + heap == h0
    requires forall x :: x in expired ==> x.at <= now
    requires forall x :: x in heap ==> x.at > now
    ensures Consistent(heap, expired, t, None)
    ensures Fire(t, expired, now, script) == Step(t, Expire(now, script))
  {
    var n := |expired|;
    assert expired == h0[..n] && heap == h0[n..];
    PopKeeps(h0, t, n);
    assert forall i :: n <= i < |h0| ==> h0[i] in heap;
    DueEntries(h0, t, n, now);
    forall x | x in expired
      ensures x.id in t.live || t.Dead(x.id)
    {
      assert EntryOk(t, x);
    }
    StaleEntriesIgnored(t, t, expired, now, script);
  }

  /** A stale entry has been taken: nothing is being fired. */
  lemma ForgetFiring(heap: seq<Entry>, batch: seq<Entry>, t: Timers, s: nat)
    requires Consistent(heap, batch, t, Some(s)) && s !in t.live
    ensures Consistent(heap, batch, t, None)
  {
  }
}
