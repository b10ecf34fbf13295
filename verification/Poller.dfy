/** `net/Poller.cpp`: the array given to `poll`, its index stored in each channel, and the counted scan. */
module Poller {

  const NOT_FILL: int := -1

  /** One `struct pollfd`. */
  datatype PollFd = PollFd(fd: int, events: int, revents: int)

  class Channel {
    const fd: nat
    var events: int
    var returnEvents: int
    var index: int

    constructor (fd: nat)
      ensures this.fd == fd && events == 0 && returnEvents == 0 && index == NOT_FILL
    {
      this.fd := fd;
      events, returnEvents, index := 0, 0, NOT_FILL;
    }
  }

  /** `~fd`, by which a slot without interest is hidden from the kernel. */
  function Complement(fd: int): int { -fd - 1 }

  /** As in two's complement: the two add up to -1. It is negative exactly for descriptors, and its own inverse. */
  lemma TwosComplement(fd: int)
    ensures fd + Complement(fd) == -1 && Complement(Complement(fd)) == fd && (Complement(fd) < 0 <==> fd >= 0)
  {
  }

  /** The descriptor a slot belongs to. */
  function Owner(slot: PollFd): int {
    if slot.fd < 0 then Complement(slot.fd) else slot.fd
  }

  // ---- The counted scan --------------------------------------------------

  /** The slots the scan reports when it stops after n ready ones. */
  function FirstReady(slots: seq<PollFd>, n: nat): seq<PollFd> {
    if slots == [] || n == 0 then []
    else if slots[0].revents > 0 then [slots[0]] + FirstReady(slots[1..], n - 1)
    else FirstReady(slots[1..], n)
  }

  function AllReady(slots: seq<PollFd>): seq<PollFd> {
    if slots == [] then []
    else if slots[0].revents > 0 then [slots[0]] + AllReady(slots[1..])
    else AllReady(slots[1..])
  }

  /** All ready slots: those with events, each as often as it is there, in their order. */
  lemma {:induction false} AllReadyExact(slots: seq<PollFd>, slot: PollFd)
    ensures multiset(AllReady(slots))[slot] == if slot.revents > 0 then multiset(slots)[slot] else 0
    decreases slots
  {
    if slots != [] {
      AllReadyExact(slots[1..], slot);
      assert slots == [slots[0]] + slots[1..];
    }
  }

  /** Stopping early reports the first n ready slots: everything exactly when n is no less than their number. */
  lemma EarlyExit(slots: seq<PollFd>, n: nat)
    ensures FirstReady(slots, n) == if n < |AllReady(slots)| then AllReady(slots)[..n] else AllReady(slots)
    ensures FirstReady(slots, n) == AllReady(slots) <==> n >= |AllReady(slots)|
  {
    FirstOfAll(slots, n);
  }

  lemma {:induction false} FirstOfAll(slots: seq<PollFd>, n: nat)
    ensures FirstReady(slots, n) == Prefix(AllReady(slots), n)
    decreases slots
  {
    if slots != [] && n > 0 {
      if slots[0].revents > 0 {
        FirstOfAll(slots[1..], n - 1);
        PrefixOne(slots[0], AllReady(slots[1..]), n);
      } else {
        FirstOfAll(slots[1..], n);
      }
    }
  }

  function Prefix(ready: seq<PollFd>, n: nat): seq<PollFd> {
    if n < |ready| then ready[..n] else ready
  }

  lemma PrefixOne(slot: PollFd, ready: seq<PollFd>, n: nat)
    requires n > 0
    ensures Prefix([slot] + ready, n) == [slot] + Prefix(ready, n - 1)
  {
  }

  /** One turn of the scan. */
  lemma ReadyStep(done: seq<PollFd>, rest: seq<PollFd>, n: nat)
    requires rest != [] && n > 0
    ensures rest[0].revents > 0 ==>
              done + FirstReady(rest, n) == (done + [rest[0]]) + FirstReady(rest[1..], n - 1)
    ensures rest[0].revents <= 0 ==> done + FirstReady(rest, n) == done + FirstReady(rest[1..], n)
  {
  }

  // ---- Slots and indices -------------------------------------------------

  /** The slots, and the index stored in the channel of each registered descriptor. */
  datatype Table = Table(slots: seq<PollFd>, index: map<int, int>) {

    /** Slots and stored indices agree. */
    ghost predicate Ok() {
      && (forall fd :: fd in index ==> 0 <= index[fd] < |slots| && Owner(slots[index[fd]]) == fd)
      && (forall i :: 0 <= i < |slots| ==> Owner(slots[i]) in index && index[Owner(slots[i])] == i)
    }

    /** The slot of each descriptor, wherever it is. */
    ghost function BySlot(): map<int, PollFd>
      requires Ok()
    {
      map fd | fd in index :: slots[index[fd]]
    }

    function Added(slot: PollFd): Table {
      Table(slots + [slot], index[Owner(slot) := |slots|])
    }

    function Changed(slot: PollFd): Table
      requires Owner(slot) in index && 0 <= index[Owner(slot)] < |slots|
    {
      this.(slots := slots[index[Owner(slot)] := slot])
    }

    /** Swap with the last slot, repair the index of its channel, drop the last. */
    function Removed(fd: int): Table
      requires fd in index && 0 <= index[fd] < |slots|
    {
      var last := slots[|slots| - 1];
      Table(slots[index[fd] := last][..|slots| - 1], index[Owner(last) := index[fd]] - {fd})
    }
  }

  lemma AddedOk(t: Table, slot: PollFd)
    requires t.Ok() && Owner(slot) !in t.index
    ensures t.Added(slot).Ok() && t.Added(slot).BySlot() == t.BySlot()[Owner(slot) := slot]
  {
    var u := t.Added(slot);
    forall i | 0 <= i < |u.slots|
      ensures Owner(u.slots[i]) in u.index && u.index[Owner(u.slots[i])] == i
    {
      if i < |t.slots| { assert u.slots[i] == t.slots[i]; }
    }
    SameSlots(u, t.BySlot()[Owner(slot) := slot]);
  }

  /** Two descriptions of the registrations agree when they agree on every descriptor. */
  lemma SameSlots(u: Table, m: map<int, PollFd>)
    requires u.Ok() && m.Keys == u.index.Keys
    requires forall fd :: fd in u.index ==> u.slots[u.index[fd]] == m[fd]
    ensures u.BySlot() == m
  {
    var b := u.BySlot();
    assert b.Keys == m.Keys;
    assert forall fd :: fd in m ==> b[fd] == m[fd];
  }

  lemma ChangedOk(t: Table, slot: PollFd)
    requires t.Ok() && Owner(slot) in t.index
    ensures t.Changed(slot).Ok() && t.Changed(slot).BySlot() == t.BySlot()[Owner(slot) := slot]
  {
    SameSlots(t.Changed(slot), t.BySlot()[Owner(slot) := slot]);
  }

  /** Removal keeps slots and indices consistent and loses no other registration. */
  lemma RemovedOk(t: Table, fd: int)
    requires t.Ok() && fd in t.index
    ensures t.Removed(fd).Ok() && t.Removed(fd).BySlot() == t.BySlot() - {fd}
  {
    var u, n := t.Removed(fd), |t.slots| - 1;
    var last := Owner(t.slots[n]);
    forall i | 0 <= i < |u.slots|
      ensures Owner(u.slots[i]) in u.index && u.index[Owner(u.slots[i])] == i
    {
      assert u.slots[i] == if i == t.index[fd] then t.slots[n] else t.slots[i];
    }
    forall f | f in u.index
      ensures 0 <= u.index[f] < |u.slots| && u.slots[u.index[f]] == t.slots[t.index[f]]
    {
      if f != last {
        assert t.index[f] != n && t.index[f] != t.index[fd];
      }
    }
    SameSlots(u, t.BySlot() - {fd});
  }

  // ---- Sequences of calls ------------------------------------------------

  /** A channel changes its interest and tells the poller, or is removed. */
  datatype Call = Update(channel: Channel, events: int) | Remove(channel: Channel)

  /** The same without the object. */
  datatype Request = Wanted(fd: int, events: int) | Gone(fd: int)

  function Named(call: Call): Request {
    match call
    case Update(c, events) => Wanted(c.fd, events)
    case Remove(c) => Gone(c.fd)
  }

  function AllNamed(calls: seq<Call>): seq<Request> {
    seq(|calls|, i requires 0 <= i < |calls| => Named(calls[i]))
  }

  /** What a request leaves: the slot with its interest, hidden if there is none and it is not new; or nothing. */
  ghost function AfterCall(m: map<int, PollFd>, r: Request): map<int, PollFd> {
    match r
    case Wanted(fd, events) => m[fd := PollFd(if fd in m && events == 0 then Complement(fd) else fd, events, 0)]
    case Gone(fd) => m - {fd}
  }

  ghost function AfterCalls(m: map<int, PollFd>, rs: seq<Request>): map<int, PollFd>
    decreases rs
  {
    if rs == [] then m else AfterCalls(AfterCall(m, rs[0]), rs[1..])
  }

  /** Whatever came before, a registered channel's slot shows its last request, and the kernel sees it exactly
      when it wants events or was registered by that very request. */
  lemma LastRequest(m: map<int, PollFd>, rs: seq<Request>, fd: nat, events: int)
    ensures var before, now := AfterCalls(m, rs), AfterCalls(m, rs + [Wanted(fd, events)]);
            && fd in now && now[fd].events == events && Owner(now[fd]) == fd
            && (now[fd].fd >= 0 <==> events != 0 || fd !in before)
            && now - {fd} == before - {fd}
  {
    AfterCallsMore(m, rs, Wanted(fd, events));
  }

  /** And a removed one has none, while all others stay. */
  lemma LastRemoval(m: map<int, PollFd>, rs: seq<Request>, fd: nat)
    ensures AfterCalls(m, rs + [Gone(fd)]) == AfterCalls(m, rs) - {fd}
  {
    AfterCallsMore(m, rs, Gone(fd));
  }

  lemma {:induction false} AfterCallsMore(m: map<int, PollFd>, rs: seq<Request>, r: Request)
    ensures AfterCalls(m, rs + [r]) == AfterCall(AfterCalls(m, rs), r)
    decreases rs
  {
    if rs == [] {
      assert rs + [r] == [r] && [r][1..] == [];
    } else {
      assert (rs + [r])[1..] == rs[1..] + [r];
      AfterCallsMore(AfterCall(m, rs[0]), rs[1..], r);
    }
  }

  // ---- The poller --------------------------------------------------------

  class Poller {
    var slots: seq<PollFd>          // pollFdList_
    var channels: map<int, Channel>

    /** The slots with the indices the channels store. */
    ghost function View(): Table
      reads this, channels.Values`index
    {
      Table(slots, map fd | fd in channels :: channels[fd].index)
    }

    ghost predicate Valid()
      reads this, channels.Values`index
    {
      (forall fd :: fd in channels ==> channels[fd].fd == fd) && View().Ok()
    }

    constructor ()
      ensures Valid() && channels == map[] && slots == []
    {
      slots, channels := [], map[];
    }

    /** The channel is one of this poller's, or it has no slot and its descriptor is not taken. */
    ghost predicate Mine(c: Channel)
      reads this, c
    {
      if c.index == NOT_FILL then c.fd !in channels else c.fd in channels && channels[c.fd] == c
    }

    /** The slot `updateChannel` leaves for a channel. */
    function SlotFor(c: Channel): (slot: PollFd)
      reads c
      ensures Owner(slot) == c.fd
      ensures slot.fd < 0 <==> c.index != NOT_FILL && c.events == 0
    {
      PollFd(if c.index != NOT_FILL && c.events == 0 then Complement(c.fd) else c.fd, c.events, 0)
    }

    method UpdateChannel(c: Channel)
      requires Valid() && Mine(c)
      modifies this, c`index
      ensures Valid() && Mine(c) && c.index != NOT_FILL
      ensures channels == old(channels)[c.fd := c]
      ensures View().BySlot() == old(View().BySlot())[c.fd := old(SlotFor(c))]
    {
      ghost var t, slot := View(), SlotFor(c);
      if c.index == NOT_FILL {
        AddedOk(t, slot);
        AddSlot(c);
      } else {
        ChangedOk(t, slot);
        StoredIndex(c);
        ChangeSlot(c);
      }
    }

    method AddSlot(c: Channel)
      requires forall fd :: fd in channels ==> channels[fd] != c
      modifies this, c`index
      ensures channels == old(channels)[c.fd := c]
      ensures View() == old(View()).Added(PollFd(c.fd, c.events, 0)) && c.index == |old(slots)|
    {
      ghost var t, slot := View(), PollFd(c.fd, c.events, 0);
      slots := slots + [PollFd(c.fd, c.events, 0)];
      c.index := |slots| - 1;
      channels := channels[c.fd := c];
      ViewIs(t.Added(slot));
    }

    method ChangeSlot(c: Channel)
      requires c.fd in channels && channels[c.fd] == c && 0 <= c.index < |slots|
      modifies this`slots
      ensures View().index == old(View().index)
      ensures slots == old(slots)[c.index := PollFd(if c.events == 0 then Complement(c.fd) else c.fd, c.events, 0)]
    {
      var fd := if c.events == 0 then Complement(c.fd) else c.fd;
      slots := slots[c.index := PollFd(fd, c.events, 0)];
    }

    method RemoveChannel(c: Channel)
      requires Valid() && Mine(c)
      modifies this, c`index, channels.Values`index
      ensures Valid() && Mine(c) && c.index == NOT_FILL
      ensures channels == old(channels) - {c.fd}
      ensures View().BySlot() == old(View().BySlot()) - {c.fd}
    {
      ghost var t := View();
      var index := c.index;
      if c.fd in channels { StoredIndex(c); }
      if index < 0 || index >= |slots| {
        assert channels - {c.fd} == channels && t.BySlot() - {c.fd} == t.BySlot();
        return;
      }
      RemovedOk(t, c.fd);
      LastFound();
      RemoveSlot(c);
    }

    /** The channels of a set have descriptors of their own, and each is this poller's or not registered. */
    ghost predicate AllMine(all: set<Channel>)
      reads this, all
    {
      && (forall c, d :: c in all && d in all && c.fd == d.fd ==> c == d)
      && (forall c :: c in all ==> Mine(c))
      && channels.Values <= all
    }

    /** One call keeps the other channels of the set as they are. */
    method Perform(all: set<Channel>, call: Call)
      requires Valid() && AllMine(all) && call.channel in all
      modifies this, all
      ensures Valid() && AllMine(all)
      ensures View().BySlot() == AfterCall(old(View().BySlot()), Named(call))
    {
      match call
      case Update(c, events) => UpdateOne(all, c, events);
      case Remove(c) => RemoveOne(all, c);
    }

    method UpdateOne(all: set<Channel>, c: Channel, events: int)
      requires Valid() && AllMine(all) && c in all
      modifies this, all
      ensures Valid() && AllMine(all)
      ensures View().BySlot() == AfterCall(old(View().BySlot()), Wanted(c.fd, events))
    {
      SetInterest(all, c, events);
      ghost var others := set d | d in all && d != c;
      UpdatedValues(channels, c, all);
      UpdateChannel(c);
      forall d | d in others
        ensures Mine(d)
      {
        assert d.fd != c.fd;
      }
      OthersMine(all, others, c);
    }

    lemma UpdatedValues(m: map<int, Channel>, c: Channel, all: set<Channel>)
      requires m.Values <= all && c in all
      ensures m[c.fd := c].Values <= all
    {
    }

    method SetInterest(all: set<Channel>, c: Channel, events: int)
      requires Valid() && AllMine(all) && c in all
      modifies c`events
      ensures Valid() && AllMine(all) && View() == old(View()) && c.events == events
      ensures AfterCall(View().BySlot(), Wanted(c.fd, events)) == View().BySlot()[c.fd := SlotFor(c)]
    {
      c.events := events;
      assert Mine(c);
      assert c.index == NOT_FILL <==> c.fd !in View().BySlot();
    }

    lemma OthersMine(all: set<Channel>, others: set<Channel>, c: Channel)
      requires forall d :: d in all <==> d == c || d in others
      requires (forall d, e :: d in all && e in all && d.fd == e.fd ==> d == e) && Mine(c)
      requires forall d :: d in others ==> Mine(d)
      requires channels.Values <= all
      ensures AllMine(all)
    {
    }

    method RemoveOne(all: set<Channel>, c: Channel)
      requires Valid() && AllMine(all) && c in all
      modifies this, all
      ensures Valid() && AllMine(all)
      ensures View().BySlot() == old(View().BySlot()) - {c.fd}
    {
      ghost var free := set d | d in all && d.index == NOT_FILL;
      FreeIsElsewhere(free);
      RemoveChannel(c);
      forall d | d in all && d !in free && d != c
        ensures Mine(d)
      {
        StoredIndex(d);
      }
    }

    lemma FreeIsElsewhere(free: set<Channel>)
      requires Valid() && forall d :: d in free ==> d.index == NOT_FILL
      ensures free !! channels.Values
    {
      forall fd | fd in channels
        ensures channels[fd] !in free
      {
        StoredIndex(channels[fd]);
      }
    }

    /** Any sequence of updates and removals of channels with distinct descriptors: slots, map and stored indices
        agree throughout, and the registrations are those the calls ask for. */
    method PerformAll(all: set<Channel>, calls: seq<Call>)
      requires Valid() && AllMine(all) && forall call :: call in calls ==> call.channel in all
      modifies this, all
      ensures Valid() && AllMine(all)
      ensures View().BySlot() == AfterCalls(old(View().BySlot()), AllNamed(calls))
    {
      var k := 0;
      ghost var m := View().BySlot();
      ghost var named := AllNamed(calls);
      assert named[0..] == named;
      while k < |calls|
        invariant k <= |calls| && Valid() && AllMine(all)
        invariant AfterCalls(m, named) == AfterCalls(View().BySlot(), named[k..])
      {
        assert named[k..][0] == Named(calls[k]) && named[k..][1..] == named[k + 1..];
        Perform(all, calls[k]);
        k := k + 1;
      }
    }

    /** A registered channel stores the index of its slot. */
    lemma StoredIndex(c: Channel)
      requires Valid() && c.fd in channels && channels[c.fd] == c
      ensures 0 <= c.index < |slots| && View().index[c.fd] == c.index
    {
      assert c.fd in View().index;
    }

    lemma LastFound()
      requires Valid() && slots != []
      ensures var fd := Owner(slots[|slots| - 1]); fd in channels && channels[fd].fd == fd
      ensures forall fd :: fd in channels ==> channels[fd].fd == fd
    {
      assert Owner(slots[|slots| - 1]) in View().index;
    }

    method RemoveSlot(c: Channel)
      requires c.fd in channels && channels[c.fd] == c && 0 <= c.index < |slots|
      requires Owner(slots[|slots| - 1]) in channels
      requires forall fd :: fd in channels ==> channels[fd].fd == fd
      requires c.index == |slots| - 1 ==> Owner(slots[|slots| - 1]) == c.fd
      modifies this, channels.Values`index
      ensures channels == old(channels) - {c.fd} && c.index == NOT_FILL
      ensures View() == old(View()).Removed(c.fd)
    {
      ghost var t := View();
      var index, last := c.index, slots[|slots| - 1];
      if index < |slots| - 1 {
        slots := slots[index := last][|slots| - 1 := slots[index]];
        var fd := slots[index].fd;
        if fd < 0 {
          fd := Complement(fd);
        }
        if fd in channels {
          channels[fd].index := index;
        }
      }
      slots := slots[..|slots| - 1];
      assert slots == t.Removed(c.fd).slots;
      channels := channels - {c.fd};
      c.index := NOT_FILL;
      ViewIs(t.Removed(c.fd));
    }

    /** The view is t when the slots are and every channel stores the index t has for it. */
    lemma ViewIs(t: Table)
      requires slots == t.slots && t.index.Keys == channels.Keys
      requires forall fd :: fd in channels ==> channels[fd].index == t.index[fd]
      ensures View() == t
    {
      var v := View().index;
      assert v.Keys == t.index.Keys;
      assert forall fd :: fd in t.index ==> v[fd] == t.index[fd];
    }

    /** Every ready slot leads to its channel. */
    ghost predicate Found(k: nat)
      requires k < |slots|
      reads this, channels.Values`index
    {
      var fd := slots[k].fd;
      fd in channels && channels[fd].index == k && channels[fd].fd == fd
    }

    lemma SlotFound(k: nat)
      requires Valid() && k < |slots| && slots[k].fd >= 0
      ensures Found(k)
    {
      assert Owner(slots[k]) in View().index;
    }

    /** The scan reports the channels of the first `numEvents` ready slots, with their events. */
    method FillActiveChannels(numEvents: nat) returns (active: seq<Channel>)
      requires Valid() && OnlyVisibleReady(slots)
      modifies channels.Values`returnEvents
      ensures Reported(active, FirstReady(slots, numEvents))
    {
      forall k | 0 <= k < |slots| && slots[k].revents > 0 ensures Found(k) { SlotFound(k); }
      active := Scan(numEvents);
    }

    method Scan(numEvents: nat) returns (active: seq<Channel>)
      requires forall k :: 0 <= k < |slots| && slots[k].revents > 0 ==> Found(k)
      modifies channels.Values`returnEvents
      ensures Reported(active, FirstReady(slots, numEvents))
    {
      active := [];
      var left, k := numEvents, 0;
      ghost var done, rest: seq<PollFd> := [], slots;
      while k < |slots| && left > 0
        invariant k <= |slots| && rest == slots[k..]
        invariant FirstReady(slots, numEvents) == done + FirstReady(rest, left)
        invariant Reported(active, done)
        invariant forall i :: 0 <= i < |active| ==> active[i].index < k
      {
        var slot := slots[k];
        ReadyStep(done, rest, left);
        if slot.revents > 0 {
          left := left - 1;
          assert Found(k);
          if slot.fd in channels {
            var channel := channels[slot.fd];
            if channel.fd == slot.fd {
              active := Report(active, channel, slot, done);
            }
          }
          done := done + [slot];
        }
        k := k + 1;
        rest := rest[1..];
      }
    }

    /** `setReturnEvents` and `push_back` for one channel. */
    method Report(active: seq<Channel>, channel: Channel, slot: PollFd, ghost done: seq<PollFd>)
        returns (r: seq<Channel>)
      requires Reported(active, done) && slot.fd in channels && channel == channels[slot.fd] && channel !in active
      modifies channel`returnEvents
      ensures r == active + [channel] && Reported(r, done + [slot])
    {
      channel.returnEvents := slot.revents;
      r := active + [channel];
    }

    /** These channels, in the order of their slots, now hold the slots' events. */
    ghost predicate Reported(active: seq<Channel>, ready: seq<PollFd>)
      reads this, active
    {
      && |active| == |ready|
      && forall i :: 0 <= i < |ready| ==>
           ready[i].fd in channels && active[i] == channels[ready[i].fd] && active[i].returnEvents == ready[i].revents
    }

    /** After a poll that reported the number of ready slots, nothing is missed; after a failed one, nothing
        is reported. */
    method PollReturned(numEvents: int) returns (active: seq<Channel>)
      requires Valid() && OnlyVisibleReady(slots) && (numEvents < 0 || numEvents == |AllReady(slots)|)
      modifies channels.Values`returnEvents
      ensures Reported(active, if numEvents < 0 then [] else AllReady(slots))
    {
      active := [];
      if numEvents >= 0 { EarlyExit(slots, numEvents); }
      if numEvents > 0 {
        active := FillActiveChannels(numEvents);
      }
    }
  }

  /** The kernel skips slots with a negative descriptor. */
  ghost predicate OnlyVisibleReady(slots: seq<PollFd>) {
    forall i :: 0 <= i < |slots| && slots[i].revents > 0 ==> slots[i].fd >= 0
  }
}
