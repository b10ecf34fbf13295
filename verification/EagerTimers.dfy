/** The timers as their users see them: a set of live timers from which a cancelled one is gone at once. */
module EagerTimers {
  import opened Entries

  const NS_PER_MS: int := 1_000_000

  /** Deadline in nanoseconds of the steady clock, interval in milliseconds; repeated when positive. */
  datatype Timer = Timer(deadline: int, interval: int)

  /** Live timers, timers constructed by other threads whose insertion is still queued, and the counter. */
  datatype Timers = Timers(live: map<nat, Timer>, inFlight: map<nat, Timer>, next: nat) {
    ghost predicate Valid() {
      && (forall s :: s in live ==> s < next)
      && (forall s :: s in inFlight ==> s < next && s !in live)
    }

    /** s was inserted once and is gone. */
    ghost predicate Dead(s: nat) {
      s < next && s !in live && s !in inFlight
    }
  }

  /** What a callback, or another thread meanwhile, may do: add on the loop thread, construct on another
      thread, cancel on the loop thread. */
  datatype Action =
    | Add(at: int, interval: int)
    | Construct(at: int, interval: int)
    | Cancel(id: nat)

  /** All actions during one callback, and the clock `restart` then reads. */
  datatype Turn = Turn(actions: seq<Action>, clock: int)

  datatype Command =
    | Do(action: Action)
    | InsertQueued(id: nat)
    | Expire(now: int, script: seq<Turn>)

  // Deadlines after the clock's epoch, as a running clock gives them.

  predicate PositiveAction(a: Action) {
    !a.Cancel? ==> a.at > 0
  }

  predicate PositiveTurn(turn: Turn) {
    turn.clock >= 0 && forall i :: 0 <= i < |turn.actions| ==> PositiveAction(turn.actions[i])
  }

  predicate PositiveCommand(c: Command) {
    match c
    case Do(a) => PositiveAction(a)
    case InsertQueued(_) => true
    case Expire(now, script) => now >= 0 && forall i :: 0 <= i < |script| ==> PositiveTurn(script[i])
  }

  function Act(t: Timers, a: Action): Timers {
    match a
    case Add(at, interval) => t.(live := t.live[t.next := Timer(at, interval)], next := t.next + 1)
    case Construct(at, interval) => t.(inFlight := t.inFlight[t.next := Timer(at, interval)], next := t.next + 1)
    case Cancel(s) => t.(live := t.live - {s})
  }

  function ActAll(t: Timers, actions: seq<Action>): Timers
    decreases actions
  {
    if actions == [] then t else ActAll(Act(t, actions[0]), actions[1..])
  }

  /** The task queued by another thread's `addTimer`. */
  function DoInsert(t: Timers, s: nat): Timers {
    if s in t.inFlight then t.(live := t.live[s := t.inFlight[s]], inFlight := t.inFlight - {s}) else t
  }

  /** After its callback: a timer still alive is restarted or, if it is not repeated, gone. */
  function Finish(t: Timers, s: nat, clock: int): Timers {
    if s !in t.live then t
    else if t.live[s].interval > 0 then
      t.(live := t.live[s := t.live[s].(deadline := clock + t.live[s].interval * NS_PER_MS)])
    else t.(live := t.live - {s})
  }

  function FirstTurn(script: seq<Turn>, now: int): Turn {
    if script == [] then Turn([], now) else script[0]
  }

  function Rest<T>(s: seq<T>): seq<T> {
    if s == [] then [] else s[1..]
  }

  /** Runs through the entries, firing those whose timers are alive when their turn comes. */
  function Fire(t: Timers, es: seq<Entry>, now: int, script: seq<Turn>): (Timers, seq<Entry>)
    decreases es
  {
    if es == [] then (t, [])
    else if es[0].id !in t.live then Fire(t, es[1..], now, script)
    else
      var turn := FirstTurn(script, now);
      var t' := Finish(ActAll(t, turn.actions), es[0].id, turn.clock);
      var (last, fired) := Fire(t', es[1..], now, Rest(script));
      (last, [es[0]] + fired)
  }

  /** One turn of that loop, after some entries have fired. */
  lemma FireTurn(t: Timers, es: seq<Entry>, now: int, script: seq<Turn>, fired: seq<Entry>)
    requires es != []
    ensures es[0].id !in t.live ==> Fire(t, es, now, script) == Fire(t, es[1..], now, script)
    ensures es[0].id in t.live ==>
              var turn := FirstTurn(script, now);
              var t' := Finish(ActAll(t, turn.actions), es[0].id, turn.clock);
              && Fire(t, es, now, script).0 == Fire(t', es[1..], now, Rest(script)).0
              && fired + Fire(t, es, now, script).1 == (fired + [es[0]]) + Fire(t', es[1..], now, Rest(script)).1
  {
  }

  lemma PositiveRest(now: int, script: seq<Turn>)
    requires PositiveCommand(Expire(now, script))
    ensures PositiveTurn(FirstTurn(script, now)) && PositiveCommand(Expire(now, Rest(script)))
  {
  }

  /** The live timers due at `now`, by deadline and sequence number. */
  ghost function DueSet(t: Timers, now: int): set<Entry> {
    set s | s in t.live && t.live[s].deadline <= now :: Entry(t.live[s].deadline, s)
  }

  /** One command: the new timers and what fired. */
  ghost function Step(t: Timers, c: Command): (Timers, seq<Entry>) {
    match c
    case Do(a) => (Act(t, a), [])
    case InsertQueued(s) => (DoInsert(t, s), [])
    case Expire(now, script) => Fire(t, Sorted(DueSet(t, now)), now, script)
  }

  ghost function Run(t: Timers, cs: seq<Command>): (Timers, seq<Entry>)
    decreases cs
  {
    if cs == [] then (t, [])
    else
      var (t', fired) := Step(t, cs[0]);
      var (last, more) := Run(t', cs[1..]);
      (last, fired + more)
  }

  /** One command of a run, after some entries have fired. */
  lemma RunTurn(t: Timers, cs: seq<Command>, fired: seq<Entry>)
    requires cs != []
    ensures var (t', now) := Step(t, cs[0]);
            Run(t, cs).0 == Run(t', cs[1..]).0 && fired + Run(t, cs).1 == (fired + now) + Run(t', cs[1..]).1
  {
  }

  // ---- Validity and death ------------------------------------------------

  /** t' came after t: nothing dead came back and the counter did not go down. */
  ghost predicate Later(t: Timers, t': Timers) {
    t'.Valid() && t.next <= t'.next && forall s :: t.Dead(s) ==> t'.Dead(s)
  }

  lemma {:induction false} ActAllLater(t: Timers, actions: seq<Action>)
    requires t.Valid()
    ensures Later(t, ActAll(t, actions))
    decreases actions
  {
    if actions != [] {
      assert Later(t, Act(t, actions[0]));
      ActAllLater(Act(t, actions[0]), actions[1..]);
    }
  }

  lemma {:induction false} FireLater(t: Timers, es: seq<Entry>, now: int, script: seq<Turn>)
    requires t.Valid()
    ensures Later(t, Fire(t, es, now, script).0)
    ensures forall x :: x in Fire(t, es, now, script).1 ==> x in es && !t.Dead(x.id)
    decreases es
  {
    if es != [] {
      if es[0].id !in t.live {
        FireLater(t, es[1..], now, script);
      } else {
        var turn := FirstTurn(script, now);
        ActAllLater(t, turn.actions);
        var t' := Finish(ActAll(t, turn.actions), es[0].id, turn.clock);
        assert Later(t, t');
        FireLater(t', es[1..], now, Rest(script));
      }
    }
  }

  lemma StepLater(t: Timers, c: Command)
    requires t.Valid()
    ensures Later(t, Step(t, c).0)
    ensures forall x :: x in Step(t, c).1 ==> !t.Dead(x.id)
  {
    if c.Expire? {
      FireLater(t, Sorted(DueSet(t, c.now)), c.now, c.script);
    }
  }

  /** A dead timer never fires again, whatever happens. */
  lemma {:induction false} DeadNeverFires(t: Timers, cs: seq<Command>, s: nat)
    requires t.Valid() && t.Dead(s)
    ensures forall x :: x in Run(t, cs).1 ==> x.id != s
    decreases cs
  {
    if cs != [] {
      StepLater(t, cs[0]);
      DeadNeverFires(Step(t, cs[0]).0, cs[1..], s);
    }
  }

  ghost predicate NeverFires(t: Timers, s: nat) {
    forall cs :: forall x :: x in Run(t, cs).1 ==> x.id != s
  }

  /** A cancel is final exactly when it does not overtake the queued insertion of its timer. */
  lemma CancelIsFinal(t: Timers, s: nat)
    requires t.Valid() && s < t.next
    ensures NeverFires(Act(t, Cancel(s)), s) <==> s !in t.inFlight
  {
    var t' := Act(t, Cancel(s));
    if s !in t.inFlight {
      forall cs
        ensures forall x :: x in Run(t', cs).1 ==> x.id != s
      {
        DeadNeverFires(t', cs, s);
      }
    } else {
      var x := OvertakenCancel(t', s);
      assert x.id == s;
    }
  }

  /** A timer still in flight will be inserted and fire. */
  lemma OvertakenCancel(t: Timers, s: nat) returns (x: Entry)
    requires t.Valid() && s in t.inFlight
    ensures x.id == s
    ensures var cs := [InsertQueued(s), Expire(t.inFlight[s].deadline, [])]; x in Run(t, cs).1
  {
    var now := t.inFlight[s].deadline;
    x := Entry(now, s);
    var cs := [InsertQueued(s), Expire(now, [])];
    var t' := DoInsert(t, s);
    assert s in t'.live && x == Entry(t'.live[s].deadline, s);
    assert x in DueSet(t', now);
    var due := Sorted(DueSet(t', now));
    OneEntryEach(t', now);
    var i := DueExact(t', due, now, [], x);
    assert cs[1..] == [Expire(now, [])] && cs[1..][1..] == [];
    var (last, fired) := Step(t', cs[1]);
    assert Run(t', cs[1..]).1 == fired + [];
    assert Run(t, cs).1 == [] + Run(t', cs[1..]).1;
  }

  // ---- One expiry pass ---------------------------------------------------

  /** Inserted some time: alive or dead, but not in flight. */
  ghost predicate Inserted(t: Timers, s: nat) {
    s in t.live || t.Dead(s)
  }

  /** Any actions of a callback leave an inserted timer as it is, exactly when they do not cancel it. */
  lemma {:induction false} ActAllExact(t: Timers, actions: seq<Action>, s: nat)
    requires t.Valid() && Inserted(t, s)
    ensures var t' := ActAll(t, actions);
            && t'.Valid() && Inserted(t', s)
            && (s in t'.live <==> s in t.live && Cancel(s) !in actions)
            && (s in t'.live ==> t'.live[s] == t.live[s])
    decreases actions
  {
    if actions != [] {
      ActExact(t, actions[0], s);
      ActAllExact(Act(t, actions[0]), actions[1..], s);
      assert Cancel(s) in actions <==> Cancel(s) == actions[0] || Cancel(s) in actions[1..];
    }
  }

  lemma ActExact(t: Timers, a: Action, s: nat)
    requires t.Valid() && Inserted(t, s)
    ensures var t' := Act(t, a);
            && t'.Valid() && Inserted(t', s)
            && (s in t'.live <==> s in t.live && a != Cancel(s))
            && (s in t'.live ==> t'.live[s] == t.live[s])
  {
  }

  /** The timers after the callback of y and what follows it. */
  function Turned(t: Timers, y: nat, turn: Turn): Timers {
    Finish(ActAll(t, turn.actions), y, turn.clock)
  }

  function Restarted(timer: Timer, clock: int): Timer {
    timer.(deadline := clock + timer.interval * NS_PER_MS)
  }

  /** One firing: an inserted timer survives exactly when it was alive, is not cancelled and, if it is the one
      fired, is repeated; it is as before, but for the one fired, which is restarted. */
  lemma TurnExact(t: Timers, y: nat, turn: Turn, s: nat)
    requires t.Valid() && Inserted(t, s)
    ensures var t' := Turned(t, y, turn);
            && t'.Valid() && Inserted(t', s)
            && (s in t'.live <==> s in t.live && Cancel(s) !in turn.actions && (s == y ==> t.live[s].interval > 0))
            && (s in t'.live ==> t'.live[s] == if s == y then Restarted(t.live[s], turn.clock) else t.live[s])
  {
    ActAllExact(t, turn.actions, s);
  }

  /** The callback that fires as number i of the pass cancels timer s. */
  predicate Cancels(script: seq<Turn>, i: nat, s: nat) {
    i < |script| && Cancel(s) in script[i].actions
  }

  predicate NoneCancels(script: seq<Turn>, from: nat, to: nat, s: nat) {
    forall i :: from <= i < to ==> !Cancels(script, i, s)
  }

  lemma FirstCancels(script: seq<Turn>, now: int, s: nat)
    ensures Cancels(script, 0, s) <==> Cancel(s) in FirstTurn(script, now).actions
  {
  }

  /** The script seen from behind its first turn. */
  lemma ShiftCancels(script: seq<Turn>, from: nat, to: nat, s: nat)
    ensures NoneCancels(script, from + 1, to + 1, s) <==> NoneCancels(Rest(script), from, to, s)
    ensures NoneCancels(script, 0, to + 1, s) <==> !Cancels(script, 0, s) && NoneCancels(Rest(script), 0, to, s)
  {
    assert forall i: nat :: Cancels(Rest(script), i, s) <==> Cancels(script, i + 1, s);
    if NoneCancels(Rest(script), from, to, s) {
      forall i | from + 1 <= i < to + 1
        ensures !Cancels(script, i, s)
      {
        assert !Cancels(Rest(script), i - 1, s);
      }
    }
    if NoneCancels(Rest(script), 0, to, s) {
      forall i | 1 <= i < to + 1
        ensures !Cancels(script, i, s)
      {
        assert !Cancels(Rest(script), i - 1, s);
      }
    }
  }

  /** A pass leaves an inserted timer without an entry as it was, exactly when no callback that ran cancels it;
      otherwise it is dead. */
  lemma {:induction false} NotDueUntouched(t: Timers, es: seq<Entry>, now: int, script: seq<Turn>, s: nat)
    requires t.Valid() && Inserted(t, s) && forall x :: x in es ==> x.id != s
    ensures var (last, fired) := Fire(t, es, now, script);
            && Inserted(last, s)
            && (s in last.live <==> s in t.live && NoneCancels(script, 0, |fired|, s))
            && (s in last.live ==> last.live[s] == t.live[s])
    decreases es
  {
    if es != [] {
      assert es[0] in es;
      if es[0].id !in t.live {
        NotDueUntouched(t, es[1..], now, script, s);
      } else {
        var turn := FirstTurn(script, now);
        var t' := Turned(t, es[0].id, turn);
        TurnExact(t, es[0].id, turn, s);
        NotDueUntouched(t', es[1..], now, Rest(script), s);
        FirstCancels(script, now, s);
        ShiftCancels(script, 0, |Fire(t', es[1..], now, Rest(script)).1|, s);
      }
    }
  }

  function TurnAt(script: seq<Turn>, now: int, i: nat): Turn {
    if i < |script| then script[i] else Turn([], now)
  }

  /** What a pass makes of a timer whose turn comes after i callbacks: it fires exactly when none of them cancels
      it; then it lives on exactly when it is repeated and neither its own callback nor a later one cancels it,
      restarted by the clock read behind its callback; in all other cases it is dead. */
  ghost predicate Outcome(t: Timers, now: int, script: seq<Turn>, x: Entry, i: nat, last: Timers, fired: seq<Entry>)
    requires x.id in t.live
  {
    && i <= |fired|
    && Inserted(last, x.id)
    && if NoneCancels(script, 0, i, x.id) then
         && i < |fired| && fired[i] == x
         && (x.id in last.live <==> t.live[x.id].interval > 0 && NoneCancels(script, i, |fired|, x.id))
         && (x.id in last.live ==> last.live[x.id] == Restarted(t.live[x.id], TurnAt(script, now, i).clock))
       else x !in fired && last.Dead(x.id)
  }

  /** The entries before x are exactly the first i. */
  ghost predicate Divides(fired: seq<Entry>, x: Entry, i: nat) {
    forall j :: 0 <= j < |fired| ==> (Less(fired[j], x) <==> j < i)
  }

  lemma {:induction false} FindPlace(fired: seq<Entry>, x: Entry) returns (i: nat)
    requires StrictlySorted(fired)
    ensures i <= |fired| && Divides(fired, x, i)
  {
    i := 0;
    if fired != [] && Less(fired[0], x) {
      var rest := fired[1..];
      i := FindPlace(rest, x);
      assert forall j :: 1 <= j < |fired| ==> fired[j] == rest[j - 1];
      i := i + 1;
    }
  }

  lemma OnePlace(fired: seq<Entry>, i: nat, k: nat)
    requires StrictlySorted(fired) && i < |fired| && Divides(fired, fired[i], k)
    ensures k == i
  {
    if k < i {
      InOrder(fired, k, i);
      assert false;
    }
  }

  lemma InOrder(fired: seq<Entry>, k: nat, i: nat)
    requires StrictlySorted(fired) && k < i < |fired|
    ensures Less(fired[k], fired[i])
  {
  }

  /** The turn of x comes first. */
  lemma FirstOutcome(t: Timers, es: seq<Entry>, now: int, script: seq<Turn>)
    requires t.Valid() && StrictlySorted(es) && es != [] && es[0].id in t.live
    requires forall y :: y in es[1..] ==> y.id != es[0].id
    ensures var (last, fired) := Fire(t, es, now, script);
            Outcome(t, now, script, es[0], 0, last, fired) && Divides(fired, es[0], 0)
  {
    var x, turn := es[0], FirstTurn(script, now);
    var t' := Turned(t, x.id, turn);
    var later := Fire(t', es[1..], now, Rest(script)).1;
    TurnExact(t, x.id, turn, x.id);
    NotDueUntouched(t', es[1..], now, Rest(script), x.id);
    FirstCancels(script, now, x.id);
    ShiftCancels(script, 0, |later|, x.id);
    ActAllLater(t, turn.actions);
    FireLater(t', es[1..], now, Rest(script));
    forall y | y in later
      ensures !Less(y, x)
    {
      HeadIsLeast(es, y);
    }
  }

  /** An earlier callback cancels x. */
  lemma CancelledOutcome(t: Timers, es: seq<Entry>, now: int, script: seq<Turn>, x: Entry) returns (i: nat)
    requires t.Valid() && StrictlySorted(es) && es != [] && es[0].id in t.live && x in es[1..] && x.id in t.live
    requires x.id != es[0].id && Cancels(script, 0, x.id)
    ensures var (last, fired) := Fire(t, es, now, script);
            Outcome(t, now, script, x, i, last, fired) && Divides(fired, x, i)
  {
    var turn := FirstTurn(script, now);
    var t' := Turned(t, es[0].id, turn);
    TurnExact(t, es[0].id, turn, x.id);
    ActAllLater(t, turn.actions);
    FireLater(t', es[1..], now, Rest(script));
    FiredSorted(t, es, now, script);
    HeadIsLeast(es, x);
    var fired := Fire(t, es, now, script).1;
    i := FindPlace(fired, x);
    assert fired[0] == es[0] && Less(fired[0], x);
    assert !NoneCancels(script, 0, i, x.id);
  }

  /** An earlier callback leaves x alone. */
  lemma LaterOutcome(t: Timers, es: seq<Entry>, now: int, script: seq<Turn>, x: Entry, i: nat)
    requires t.Valid() && StrictlySorted(es) && es != [] && es[0].id in t.live && x in es[1..] && x.id in t.live
    requires x.id != es[0].id && !Cancels(script, 0, x.id)
    requires var t' := Turned(t, es[0].id, FirstTurn(script, now));
             var (last, later) := Fire(t', es[1..], now, Rest(script));
             x.id in t'.live && Outcome(t', now, Rest(script), x, i, last, later) && Divides(later, x, i)
    ensures var (last, fired) := Fire(t, es, now, script);
            Outcome(t, now, script, x, i + 1, last, fired) && Divides(fired, x, i + 1)
  {
    var t' := Turned(t, es[0].id, FirstTurn(script, now));
    var later := Fire(t', es[1..], now, Rest(script)).1;
    TurnExact(t, es[0].id, FirstTurn(script, now), x.id);
    FirstCancels(script, now, x.id);
    ShiftCancels(script, 0, i, x.id);
    ShiftCancels(script, i, |later|, x.id);
    HeadIsLeast(es, x);
    var fired := Fire(t, es, now, script).1;
    OneEarlier(es[0], later, x, i);
  }

  lemma OneEarlier(y: Entry, later: seq<Entry>, x: Entry, i: nat)
    requires Less(y, x) && Divides(later, x, i)
    ensures Divides([y] + later, x, i + 1) && forall j :: 0 <= j < |later| ==> ([y] + later)[j + 1] == later[j]
    ensures x in [y] + later <==> x in later
  {
    var fired := [y] + later;
    assert forall j :: 1 <= j < |fired| ==> fired[j] == later[j - 1];
  }

  ghost predicate DistinctIds(es: seq<Entry>) {
    forall j, k :: 0 <= j < k < |es| ==> es[j].id != es[k].id
  }

  lemma {:induction false} DueExact(t: Timers, es: seq<Entry>, now: int, script: seq<Turn>, x: Entry)
      returns (i: nat)
    requires t.Valid() && StrictlySorted(es) && x in es && x.id in t.live
    requires DistinctIds(es)
    ensures var (last, fired) := Fire(t, es, now, script);
            Outcome(t, now, script, x, i, last, fired) && Divides(fired, x, i)
    decreases es
  {
    var y := es[0];
    if y == x {
      FirstOutcome(t, es, now, script);
      i := 0;
    } else if y.id !in t.live {
      i := DueExact(t, es[1..], now, script, x);
    } else if Cancels(script, 0, x.id) {
      i := CancelledOutcome(t, es, now, script, x);
    } else {
      FirstCancels(script, now, x.id);
      TurnExact(t, y.id, FirstTurn(script, now), x.id);
      i := DueExact(Turned(t, y.id, FirstTurn(script, now)), es[1..], now, Rest(script), x);
      LaterOutcome(t, es, now, script, x, i);
      i := i + 1;
    }
  }

  lemma {:induction false} FiredSorted(t: Timers, es: seq<Entry>, now: int, script: seq<Turn>)
    requires t.Valid() && StrictlySorted(es)
    ensures StrictlySorted(Fire(t, es, now, script).1)
    decreases es
  {
    if es != [] {
      if es[0].id !in t.live {
        FiredSorted(t, es[1..], now, script);
      } else {
        var turn := FirstTurn(script, now);
        ActAllLater(t, turn.actions);
        var t' := Turned(t, es[0].id, turn);
        FiredSorted(t', es[1..], now, Rest(script));
        FireLater(t', es[1..], now, Rest(script));
      }
    }
  }

  /** Some callback of the pass that ran before x cancels the timer of x. */
  ghost predicate CancelledBefore(fired: seq<Entry>, script: seq<Turn>, x: Entry) {
    exists i :: 0 <= i < |fired| && Less(fired[i], x) && Cancels(script, i, x.id)
  }

  lemma DueEntry(t: Timers, now: int, s: nat) returns (x: Entry)
    requires t.Valid() && s in t.live && t.live[s].deadline <= now
    ensures x == Entry(t.live[s].deadline, s) && x in Sorted(DueSet(t, now))
    ensures DistinctIds(Sorted(DueSet(t, now)))
  {
    x := Entry(t.live[s].deadline, s);
    assert x in DueSet(t, now);
    OneEntryEach(t, now);
  }

  lemma OneEntryEach(t: Timers, now: int)
    ensures var due := Sorted(DueSet(t, now));
            && (forall j :: 0 <= j < |due| ==> due[j].id in t.live && due[j].at == t.live[due[j].id].deadline <= now)
            && DistinctIds(due)
  {
    var due := Sorted(DueSet(t, now));
    forall j | 0 <= j < |due|
      ensures due[j].id in t.live && due[j].at == t.live[due[j].id].deadline <= now
    {
      assert due[j] in DueSet(t, now);
    }
  }

  /** A pass fires in strictly increasing order, only timers that were live and due when it began, none before its
      deadline, none twice, none added or restarted meanwhile. Of those it fires exactly the ones that no
      earlier callback of the pass cancelled; the others are dead afterwards. */
  lemma PassIsExact(t: Timers, now: int, script: seq<Turn>)
    requires t.Valid()
    ensures var (last, fired) := Step(t, Expire(now, script));
            && StrictlySorted(fired)
            && (forall i, j :: 0 <= i < j < |fired| ==>
                  fired[i].at < fired[j].at || (fired[i].at == fired[j].at && fired[i].id < fired[j].id))
            && (forall x :: x in fired ==> x.at <= now && x.id in t.live && t.live[x.id].deadline == x.at)
            && (forall s :: s in t.live && t.live[s].deadline <= now ==>
                  var x := Entry(t.live[s].deadline, s);
                  && (x in fired <==> !CancelledBefore(fired, script, x))
                  && (CancelledBefore(fired, script, x) ==> last.Dead(s)))
  {
    var due := Sorted(DueSet(t, now));
    var (last, fired) := Fire(t, due, now, script);
    FiredSorted(t, due, now, script);
    FireLater(t, due, now, script);
    forall s | s in t.live && t.live[s].deadline <= now
      ensures var x := Entry(t.live[s].deadline, s);
              && (x in fired <==> !CancelledBefore(fired, script, x))
              && (CancelledBefore(fired, script, x) ==> last.Dead(s))
    {
      var x := DueEntry(t, now, s);
      var i := DueExact(t, due, now, script, x);
      CancelledMeans(fired, script, x, i);
    }
  }

  lemma CancelledMeans(fired: seq<Entry>, script: seq<Turn>, x: Entry, i: nat)
    requires i <= |fired| && Divides(fired, x, i)
    ensures CancelledBefore(fired, script, x) <==> !NoneCancels(script, 0, i, x.id)
  {
    if !NoneCancels(script, 0, i, x.id) {
      var j :| 0 <= j < i && Cancels(script, j, x.id);
      assert Less(fired[j], x);
    }
  }

  /** After a pass: the timer that fired as number i is alive exactly when it is repeated and neither its own
      callback nor a later one cancels it, and is then due one interval after the clock read behind its
      callback. */
  lemma FiredIsRestarted(t: Timers, now: int, script: seq<Turn>, i: nat)
    requires t.Valid() && i < |Step(t, Expire(now, script)).1|
    ensures var (last, fired) := Step(t, Expire(now, script));
            var s := fired[i].id;
            && s in t.live
            && (s in last.live <==> t.live[s].interval > 0 && NoneCancels(script, i, |fired|, s))
            && (s in last.live ==> last.live[s] == Restarted(t.live[s], TurnAt(script, now, i).clock))
            && (s !in last.live ==> last.Dead(s))
  {
    var due := Sorted(DueSet(t, now));
    var fired := Fire(t, due, now, script).1;
    FiredSorted(t, due, now, script);
    FireLater(t, due, now, script);
    OneEntryEach(t, now);
    var x := fired[i];
    assert x in fired;
    var k := DueExact(t, due, now, script, x);
    OnePlace(fired, i, k);
  }

  /** A callback of the pass that cancels a timer alive at its start: the timer fires after it neither in this pass
      nor in any run that follows. */
  lemma CancelInPassIsFinal(t: Timers, now: int, script: seq<Turn>, i: nat, s: nat)
    requires t.Valid() && s in t.live && i < |Step(t, Expire(now, script)).1| && Cancels(script, i, s)
    ensures var (last, fired) := Step(t, Expire(now, script));
            (forall k :: i < k < |fired| ==> fired[k].id != s) && last.Dead(s) && NeverFires(last, s)
  {
    var due := Sorted(DueSet(t, now));
    var (last, fired) := Fire(t, due, now, script);
    OneEntryEach(t, now);
    FireLater(t, due, now, script);
    if t.live[s].deadline > now {
      NotDueUntouched(t, due, now, script, s);
    } else {
      var x := DueEntry(t, now, s);
      var place := DueExact(t, due, now, script, x);
      FiredSorted(t, due, now, script);
      forall k | 0 <= k < |fired| && fired[k].id == s
        ensures k <= i
      {
        assert fired[k] in due;
        assert fired[k] == x;
        OnePlace(fired, k, place);
      }
    }
    forall cs
      ensures forall y :: y in Run(last, cs).1 ==> y.id != s
    {
      DeadNeverFires(last, cs, s);
    }
  }

  /** After a pass: every timer that was alive before it is as it was, restarted or dead, each with its exact
      condition. */
  lemma PassRestarts(t: Timers, now: int, script: seq<Turn>)
    requires t.Valid()
    ensures var (last, fired) := Step(t, Expire(now, script));
            && (forall i :: 0 <= i < |fired| ==>
                  var s := fired[i].id;
                  && s in t.live
                  && (s in last.live <==> t.live[s].interval > 0 && NoneCancels(script, i, |fired|, s))
                  && (s in last.live ==> last.live[s] == Restarted(t.live[s], TurnAt(script, now, i).clock))
                  && (s !in last.live ==> last.Dead(s)))
            && (forall s :: s in t.live && t.live[s].deadline > now ==>
                  && (s in last.live <==> NoneCancels(script, 0, |fired|, s))
                  && (s in last.live ==> last.live[s] == t.live[s])
                  && (s !in last.live ==> last.Dead(s)))
  {
    var due := Sorted(DueSet(t, now));
    var (last, fired) := Fire(t, due, now, script);
    forall i | 0 <= i < |fired|
      ensures var s := fired[i].id;
              && s in t.live
              && (s in last.live <==> t.live[s].interval > 0 && NoneCancels(script, i, |fired|, s))
              && (s in last.live ==> last.live[s] == Restarted(t.live[s], TurnAt(script, now, i).clock))
              && (s !in last.live ==> last.Dead(s))
    {
      FiredIsRestarted(t, now, script, i);
    }
    OneEntryEach(t, now);
    forall s | s in t.live && t.live[s].deadline > now
      ensures s in last.live <==> NoneCancels(script, 0, |fired|, s)
      ensures s in last.live ==> last.live[s] == t.live[s]
      ensures s !in last.live ==> last.Dead(s)
    {
      NotDueUntouched(t, due, now, script, s);
    }
  }

  // ---- New and periodic timers -------------------------------------------

  /** A pass without actions: a due timer fires; repeated, it is due again that many milliseconds later, otherwise it
      is gone. A timer not due stays as it is. */
  lemma PlainPass(t: Timers, now: int, s: nat)
    requires t.Valid() && s in t.live
    ensures var (last, fired) := Step(t, Expire(now, []));
            var timer := t.live[s];
            && last.Valid()
            && (Entry(timer.deadline, s) in fired <==> timer.deadline <= now)
            && (timer.deadline <= now && timer.interval > 0 ==>
                  s in last.live && last.live[s] == Timer(now + timer.interval * 1_000_000, timer.interval))
            && (timer.deadline <= now && timer.interval <= 0 ==> last.Dead(s))
            && (timer.deadline > now ==> s in last.live && last.live[s] == timer)
  {
    var (last, fired) := Step(t, Expire(now, []));
    var x := Entry(t.live[s].deadline, s);
    StepLater(t, Expire(now, []));
    PassIsExact(t, now, []);
    PassRestarts(t, now, []);
    if x.at <= now {
      assert !CancelledBefore(fired, [], x);
      var i :| 0 <= i < |fired| && fired[i] == x;
      assert fired[i].id == s && NoneCancels([], i, |fired|, s);
    } else {
      assert NoneCancels([], 0, |fired|, s);
    }
  }

  /** A timer just added is alive with the deadline and the interval given, under a number never used before. */
  lemma JustAdded(t: Timers, at: int, interval: int)
    requires t.Valid()
    ensures var t' := Act(t, Add(at, interval));
            && t'.Valid() && t.next !in t.live && t.next !in t.inFlight && t.next in t'.live
            && t'.live[t.next].deadline == at && t'.live[t.next].interval == interval
            && t'.live - {t.next} == t.live && t'.inFlight == t.inFlight
  {
  }

  /** Added by another thread it is in flight, where no pass fires it; inserted, it is as if added here. */
  lemma AddedElsewhere(t: Timers, at: int, interval: int)
    requires t.Valid()
    ensures var t' := Act(t, Construct(at, interval));
            t'.Valid() && t'.live == t.live && DoInsert(t', t.next) == Act(t, Add(at, interval))
  {
    var t' := Act(t, Construct(at, interval));
    assert t'.inFlight - {t.next} == t.inFlight;
  }

  /** What becomes of a new timer in the next pass. */
  lemma AddedFires(t: Timers, at: int, interval: int, now: int)
    requires t.Valid()
    ensures var (last, fired) := Step(Act(t, Add(at, interval)), Expire(now, []));
            && (Entry(at, t.next) in fired <==> at <= now)
            && (at <= now && interval > 0 ==>
                  t.next in last.live && last.live[t.next] == Timer(now + interval * 1_000_000, interval))
            && (at <= now && interval <= 0 ==> last.Dead(t.next))
  {
    JustAdded(t, at, interval);
    PlainPass(Act(t, Add(at, interval)), now, t.next);
  }

  lemma {:induction false} ActAllAppend(t: Timers, a: seq<Action>, b: seq<Action>)
    ensures ActAll(t, a + b) == ActAll(ActAll(t, a), b)
    decreases a
  {
    if a == [] {
      assert a + b == b;
    } else {
      assert (a + b)[1..] == a[1..] + b;
      ActAllAppend(Act(t, a[0]), a[1..], b);
    }
  }

  /** The timer added by action k of a callback gets the next number, and is there after the callback with the
      deadline and interval given, exactly when no later action of it cancels it. */
  lemma AddedByAction(t: Timers, actions: seq<Action>, k: nat) returns (id: nat)
    requires t.Valid() && k < |actions| && actions[k].Add?
    ensures id == ActAll(t, actions[..k]).next && t.next <= id
    ensures var t' := ActAll(t, actions);
            && t'.Valid() && Inserted(t', id)
            && (id in t'.live <==> Cancel(id) !in actions[k + 1..])
            && (id in t'.live ==> t'.live[id] == Timer(actions[k].at, actions[k].interval))
  {
    var t1 := ActAll(t, actions[..k]);
    ActAllLater(t, actions[..k]);
    id := t1.next;
    JustAdded(t1, actions[k].at, actions[k].interval);
    ActAllExact(Act(t1, actions[k]), actions[k + 1..], id);
    assert actions == actions[..k] + actions[k..] && actions[k..][1..] == actions[k + 1..];
    ActAllAppend(t, actions[..k], actions[k..]);
  }

  /** A timer added by a callback of a pass does not fire in that pass, whatever its deadline; it is there after the
      pass as it was added, exactly when nothing of the pass cancels it. `es` are the entries from the turn of
      that callback on. */
  lemma AddedInPass(t: Timers, es: seq<Entry>, now: int, script: seq<Turn>, k: nat) returns (id: nat)
    requires t.Valid() && es != [] && es[0].id in t.live && forall x :: x in es ==> x.id < t.next
    requires var actions := FirstTurn(script, now).actions; k < |actions| && actions[k].Add?
    ensures id == ActAll(t, FirstTurn(script, now).actions[..k]).next
    ensures var (last, fired) := Fire(t, es, now, script);
            var action := FirstTurn(script, now).actions[k];
            && (forall x :: x in fired ==> x.id != id)
            && (id in last.live <==>
                  Cancel(id) !in FirstTurn(script, now).actions[k + 1..] && NoneCancels(script, 1, |fired|, id))
            && (id in last.live ==> last.live[id] == Timer(action.at, action.interval))
  {
    var turn := FirstTurn(script, now);
    id := AddedByAction(t, turn.actions, k);
    assert es[0] in es;
    var t' := Turned(t, es[0].id, turn);
    assert t'.Valid() && Inserted(t', id);
    NotDueUntouched(t', es[1..], now, Rest(script), id);
    ShiftCancels(script, 0, |Fire(t', es[1..], now, Rest(script)).1|, id);
    FireLater(t, es, now, script);
  }

  /** Passes at the given times, without actions. */
  function Passes(times: seq<int>): seq<Command> {
    seq(|times|, i requires 0 <= i < |times| => Expire(times[i], []))
  }

  /** The deadline a periodic timer has for pass i, when it has fired in all before. */
  function DeadlineFor(timer: Timer, times: seq<int>, i: nat): int
    requires i < |times|
  {
    if i == 0 then timer.deadline else times[i - 1] + timer.interval * 1_000_000
  }

  /** A periodic timer fires in every one of any number of passes that are at least its interval apart. */
  lemma {:induction false} PeriodicFires(t: Timers, s: nat, times: seq<int>)
    requires t.Valid() && s in t.live && t.live[s].interval > 0
    requires forall i :: 0 <= i < |times| ==> DeadlineFor(t.live[s], times, i) <= times[i]
    ensures forall i :: 0 <= i < |times| ==> Entry(DeadlineFor(t.live[s], times, i), s) in Run(t, Passes(times)).1
    decreases times
  {
    if times != [] {
      var timer, later := t.live[s], times[1..];
      var (t', fired) := Step(t, Expire(times[0], []));
      PlainPass(t, times[0], s);
      assert DeadlineFor(timer, times, 0) == timer.deadline;
      assert Passes(times)[0] == Expire(times[0], []) && Passes(times)[1..] == Passes(later);
      forall i | 0 <= i < |later|
        ensures DeadlineFor(t'.live[s], later, i) == DeadlineFor(timer, times, i + 1) && later[i] == times[i + 1]
      {
      }
      PeriodicFires(t', s, later);
      forall i | 0 <= i < |times|
        ensures Entry(DeadlineFor(timer, times, i), s) in Run(t, Passes(times)).1
      {
        if i > 0 {
          assert DeadlineFor(t'.live[s], later, i - 1) == DeadlineFor(timer, times, i);
        }
      }
    }
  }

  // ---- Stale entries -----------------------------------------------------

  /** Entries of dead timers change nothing: a pass over all of them is a pass over the live ones. */
  lemma {:induction false} StaleEntriesIgnored(t: Timers, t0: Timers, es: seq<Entry>, now: int, script: seq<Turn>)
    requires t0.Valid() && Later(t0, t)
    requires forall x :: x in es ==> x.id in t0.live || t0.Dead(x.id)
    ensures Fire(t, es, now, script) == Fire(t, OfLive(es, t0.live), now, script)
    decreases es
  {
    if es != [] {
      var y := es[0];
      assert y in es;
      var live := OfLive(es[1..], t0.live);
      if y.id !in t0.live {
        assert t.Dead(y.id);
        StaleEntriesIgnored(t, t0, es[1..], now, script);
        assert OfLive(es, t0.live) == live;
      } else {
        assert OfLive(es, t0.live) == [y] + live;
        assert ([y] + live)[1..] == live;
        if y.id !in t.live {
          StaleEntriesIgnored(t, t0, es[1..], now, script);
        } else {
          var turn := FirstTurn(script, now);
          ActAllLater(t, turn.actions);
          var t' := Turned(t, y.id, turn);
          StaleEntriesIgnored(t', t0, es[1..], now, Rest(script));
        }
      }
    }
  }
}
