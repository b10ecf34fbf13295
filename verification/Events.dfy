/** `net/Channel.hpp`, `net/Channel.cpp` and the translations of `net/Epoller.cpp`: event bits
    from a channel's interest, through the kernel, to the callbacks that run. */
module Events {

  const POLLIN: bv32 := 0x1
  const POLLPRI: bv32 := 0x2
  const POLLOUT: bv32 := 0x4
  const POLLERR: bv32 := 0x8
  const POLLHUP: bv32 := 0x10
  const POLLNVAL: bv32 := 0x20
  const POLLRDHUP: bv32 := 0x2000

  const EPOLLIN: bv32 := 0x1
  const EPOLLPRI: bv32 := 0x2
  const EPOLLOUT: bv32 := 0x4
  const EPOLLERR: bv32 := 0x8
  const EPOLLHUP: bv32 := 0x10
  const EPOLLRDHUP: bv32 := 0x2000

  const NONE_EVENT: bv32 := 0
  const READ_EVENT: bv32 := POLLIN | POLLPRI
  const WRITE_EVENT: bv32 := POLLOUT

  datatype Backend = Poll | Epoll

  // ---- Interest ----------------------------------------------------------

  /** The interest sets a channel can reach: `listenTill*` and `ignore*` set and clear whole groups. */
  datatype Interest = Interest(read: bool, write: bool) {
    function Mask(): bv32 {
      (if read then READ_EVENT else NONE_EVENT) | (if write then WRITE_EVENT else NONE_EVENT)
    }
  }

  /** The bit operations on `events_` are exactly the operations on the two groups. */
  lemma InterestOperations(i: Interest)
    ensures i.Mask() | READ_EVENT == Interest(true, i.write).Mask()
    ensures i.Mask() | WRITE_EVENT == Interest(i.read, true).Mask()
    ensures i.Mask() & !READ_EVENT == Interest(false, i.write).Mask()
    ensures i.Mask() & !WRITE_EVENT == Interest(i.read, false).Mask()
    ensures (i.Mask() & WRITE_EVENT != 0) == i.write
    ensures (i.Mask() == NONE_EVENT) == (!i.read && !i.write)
  {
  }

  /** Read interest is POLLIN and POLLPRI, write interest POLLOUT, and nothing else is ever asked for. */
  lemma MaskBits(i: Interest)
    ensures (i.Mask() & 0x1 != 0) == i.read && (i.Mask() & 0x2 != 0) == i.read
    ensures (i.Mask() & 0x4 != 0) == i.write && i.Mask() & !0x7 == 0
  {
  }

  // ---- Translation -------------------------------------------------------

  function PollToEpollEvents(e: bv32): bv32 {
    (if e & POLLIN != 0 then EPOLLIN else 0)
    | (if e & POLLOUT != 0 then EPOLLOUT else 0)
    | (if e & POLLHUP != 0 then EPOLLHUP else 0)
    | (if e & POLLERR != 0 then EPOLLERR else 0)
    | (if e & POLLPRI != 0 then EPOLLPRI else 0)
    | EPOLLRDHUP
  }

  function SetPollEvents(e: bv32): bv32 {
    (if e & EPOLLIN != 0 then POLLIN else 0)
    | (if e & EPOLLOUT != 0 then POLLOUT else 0)
    | (if e & EPOLLHUP != 0 then POLLHUP else 0)
    | (if e & EPOLLERR != 0 then POLLERR else 0)
    | (if e & EPOLLPRI != 0 then POLLPRI else 0)
    | (if e & EPOLLRDHUP != 0 then POLLHUP else 0)
  }

  /** There and back: the five shared events survive, and the implicit RDHUP shows up as HUP. */
  lemma TranslationRoundTrip(e: bv32)
    ensures SetPollEvents(PollToEpollEvents(e))
         == (e & (POLLIN | POLLPRI | POLLOUT | POLLERR | POLLHUP)) | POLLHUP
  {
  }

  /** What is asked of epoll: the five shared bits, and RDHUP always. */
  lemma AskedExactly(e: bv32)
    ensures PollToEpollEvents(e) == (e & 0x1f) | 0x2000
  {
  }

  /** What comes back: the five shared bits, and HUP for RDHUP. */
  lemma TranslatedExactly(e: bv32)
    ensures SetPollEvents(e) == (e & 0x1f) | (if e & 0x2000 != 0 then 0x10 else 0)
  {
  }

  // ---- Kernel contract and dispatch --------------------------------------

  /** What the kernel may report for a registered channel with interest mask `events`. */
  predicate MayReport(b: Backend, events: bv32, raw: bv32) {
    match b
    case Poll => raw & !(events | POLLERR | POLLHUP | POLLNVAL) == 0
    case Epoll => raw & !(PollToEpollEvents(events) | EPOLLERR | EPOLLHUP) == 0
  }

  /** What the poller stores in `return_events_`. */
  function Returned(b: Backend, raw: bv32): bv32 {
    match b
    case Poll => raw
    case Epoll => SetPollEvents(raw)
  }

  /** The test in `Channel::handleEvent` before the read callback. */
  predicate RunsRead(r: bv32) {
    r & (POLLIN | POLLPRI | POLLRDHUP) != 0
  }

  /** The tests before the other two callbacks. */
  predicate RunsWrite(r: bv32) {
    r & POLLOUT != 0
  }

  predicate RunsError(r: bv32) {
    r & (POLLNVAL | POLLERR) != 0
  }

  /** `poll`: the read callback runs exactly when data or urgent data is reported, the write callback when the
      channel is writable, the error callback for an error or an invalid descriptor. */
  lemma PollRuns(i: Interest, raw: bv32)
    requires MayReport(Poll, i.Mask(), raw)
    ensures RunsRead(Returned(Poll, raw)) <==> raw & 0x3 != 0
    ensures RunsWrite(Returned(Poll, raw)) <==> raw & 0x4 != 0
    ensures RunsError(Returned(Poll, raw)) <==> raw & 0x28 != 0
  {
  }

  /** `epoll`: the same, for any report. */
  lemma EpollRuns(raw: bv32)
    ensures RunsRead(Returned(Epoll, raw)) <==> raw & 0x3 != 0
    ensures RunsWrite(Returned(Epoll, raw)) <==> raw & 0x4 != 0
    ensures RunsError(Returned(Epoll, raw)) <==> raw & 0x8 != 0
  {
    TranslatedExactly(raw);
    TranslatedRead((raw & 0x1f) | (if raw & 0x2000 != 0 then 0x10 else 0), raw);
  }

  lemma TranslatedRead(r: bv32, raw: bv32)
    requires r == (raw & 0x1f) | (if raw & 0x2000 != 0 then 0x10 else 0)
    ensures RunsRead(r) <==> raw & 0x3 != 0
    ensures RunsWrite(r) <==> raw & 0x4 != 0
    ensures RunsError(r) <==> raw & 0x8 != 0
  {
  }

  /** With either backend the read callback runs exactly when the kernel reports readable or urgent data. */
  lemma ReadIff(b: Backend, i: Interest, raw: bv32)
    requires MayReport(b, i.Mask(), raw)
    ensures RunsRead(Returned(b, raw)) <==> raw & 0x3 != 0
  {
    match b
    case Poll => PollRuns(i, raw);
    case Epoll => EpollRuns(raw);
  }

  /** And the kernel may report it exactly while read interest is set, writability exactly while write interest is,
      and hang-ups and errors always. */
  lemma ReadableMayBeReported(b: Backend, i: Interest)
    ensures MayReport(b, i.Mask(), 0x1) <==> i.read
    ensures MayReport(b, i.Mask(), 0x4) <==> i.write
    ensures MayReport(b, i.Mask(), 0x8) && MayReport(b, i.Mask(), 0x10)
  {
  }

  /** With either backend the read callback runs only while read interest is set. */
  lemma ReadNeedsInterest(b: Backend, i: Interest, raw: bv32)
    requires MayReport(b, i.Mask(), raw) && RunsRead(Returned(b, raw))
    ensures i.read
  {
  }

  /** On epoll this rests on RDHUP becoming HUP: passed through, it would run the callback without interest. */
  lemma RdhupMustBecomeHup()
    ensures MayReport(Epoll, NONE_EVENT, EPOLLRDHUP)
    ensures !RunsRead(Returned(Epoll, EPOLLRDHUP)) && RunsRead(POLLRDHUP)
  {
  }
}
