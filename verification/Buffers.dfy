/** `net/Buffer.cpp`: a byte array with a read and a write cursor, proved to behave as a byte string. */
module Buffers {
  import opened Bytes

  const CHEAP_PREPEND: nat := 8
  const INITIALIZE_SIZE: nat := 1024

  /** Size of the stack array that catches what does not fit during `readFd`. */
  const EXTRA_SIZE: nat := 65536

  /** Number of `size_t` values. */
  const SIZE_T: nat := 0x1_0000_0000_0000_0000

  /** `std::vector<char>::max_size()`: a longer `resize` throws. */
  const MAX_SIZE: nat := 0x7fff_ffff_ffff_ffff

  // ---- Cursor arithmetic -------------------------------------------------

  /** The vector's size and the two cursors. */
  datatype Layout = Layout(size: nat, read: nat, write: nat) {

    predicate Valid() {
      CHEAP_PREPEND <= size <= MAX_SIZE && read <= write <= size
    }

    function Readable(): nat
      requires Valid()
    {
      write - read
    }

    function Writable(): nat
      requires Valid()
    {
      size - write
    }

    /** The unsigned expression of `makeSpace`: both operations wrap. */
    function SpaceLeft(): nat
      requires Valid()
    {
      (Writable() + (read - CHEAP_PREPEND) % SIZE_T) % SIZE_T
    }

    /** Cursors after `makeSpace(len)`; without the boundary condition the write cursor may pass the end. */
    function MakeSpace(len: nat): Layout
      requires Valid()
    {
      if SpaceLeft() >= len then Layout(size, CHEAP_PREPEND, CHEAP_PREPEND + Readable())
      else Layout(write + len, read, write)
    }

    function EnsureWritable(len: nat): Layout
      requires Valid()
    {
      if Writable() >= len then this else MakeSpace(len)
    }

    /** The condition under which `ensureWritableBytes(len)` stays inside the vector. */
    predicate RoomFor(len: nat)
      requires Valid()
    {
      Writable() >= len || (Writable() + read >= CHEAP_PREPEND && write + len <= MAX_SIZE)
    }

    function Append(len: nat): (r: Layout)
      requires Valid() && RoomFor(len)
      ensures r.Valid() && r.Readable() == Readable() + len
    {
      MakeSpaceStaysInside(this, len);
      var l := EnsureWritable(len);
      l.(write := l.write + len)
    }

    function Retrieve(len: nat): (r: Layout)
      requires Valid()
      ensures r.Valid() && r.Readable() == if len >= Readable() then 0 else Readable() - len
    {
      if len >= Readable() then Layout(size, CHEAP_PREPEND, CHEAP_PREPEND)
      else this.(read := read + len)
    }
  }

  /** `makeSpace` leaves the cursors inside the vector exactly when writable + read >= 8; it then makes room. */
  lemma MakeSpaceStaysInside(l: Layout, len: nat)
    requires l.Valid() && l.write + len <= MAX_SIZE
    ensures l.Writable() < len ==>
              (l.MakeSpace(len).Valid() <==> l.Writable() + l.read >= CHEAP_PREPEND)
    ensures l.RoomFor(len) ==>
              l.EnsureWritable(len).Valid() && l.EnsureWritable(len).Writable() >= len
              && l.EnsureWritable(len).Readable() == l.Readable()
  {
    if l.read >= CHEAP_PREPEND {
      assert (l.read - CHEAP_PREPEND) % SIZE_T == l.read - CHEAP_PREPEND;
    } else {
      assert (l.read - CHEAP_PREPEND) % SIZE_T == l.read - CHEAP_PREPEND + SIZE_T;
    }
  }

  /** While the reserve is intact the vector grows exactly when the contents, the new bytes and the reserve do not
      fit into it, and then to just behind the new bytes; otherwise its size stays. */
  lemma GrowsWhenNeeded(l: Layout, len: nat)
    requires l.Valid() && l.read >= CHEAP_PREPEND && l.write + len <= MAX_SIZE
    ensures l.EnsureWritable(len).size == if 8 + l.Readable() + len <= l.size then l.size else l.write + len
    ensures l.EnsureWritable(len).size == l.size && l.Writable() < len ==> l.EnsureWritable(len).read == 8
  {
  }

  /** A drained buffer has its reserve back, however it was used before: anything fits again. */
  lemma DrainedHeals(l: Layout, n: nat, len: nat)
    requires l.Valid() && n >= l.Readable() && 8 + len <= MAX_SIZE
    ensures l.Retrieve(n) == Layout(l.size, 8, 8) && l.Retrieve(n).RoomFor(len)
  {
  }

  // ---- Operations as values ----------------------------------------------

  /** Calls on one buffer; system calls carry the kernel's answer, None for an error, and `HasWritten` the bytes
      its caller put behind the write cursor. */
  datatype Op =
    | Append(data: bytes)
    | Prepend(data: bytes)
    | Retrieve(len: nat)
    | RetrieveAll
    | RetrieveAsString(len: nat)
    | EnsureWritable(len: nat)
    | HasWritten(data: bytes)
    | ReadFd(arrived: Option<bytes>)
    | WriteFd(taken: Option<nat>)

  /** Cursors after an operation. */
  function Move(l: Layout, op: Op): (r: Layout)
    requires l.Valid() && Safe(l, op)
    ensures r.Valid()
  {
    match op
    case Append(d) => l.Append(|d|)
    case Prepend(d) => if |d| > l.read then l else l.(read := l.read - |d|)
    case Retrieve(n) => l.Retrieve(n)
    case RetrieveAll => Layout(l.size, CHEAP_PREPEND, CHEAP_PREPEND)
    case RetrieveAsString(n) => l.Retrieve(n)
    case EnsureWritable(n) => MakeSpaceStaysInside(l, n); l.EnsureWritable(n)
    case HasWritten(d) => l.(write := l.write + |d|)
    case ReadFd(None) => l
    case ReadFd(Some(d)) =>
      if |d| <= l.Writable() then l.(write := l.write + |d|)
      else l.(write := l.size).Append(|d| - l.Writable())
    case WriteFd(None) => l
    case WriteFd(Some(n)) => l.Retrieve(n)
  }

  /** What kernel and caller owe: answers and accesses inside the vector. */
  predicate Owed(l: Layout, op: Op)
    requires l.Valid()
  {
    match op
    case RetrieveAsString(n) => l.read + n <= l.size
    case HasWritten(d) => |d| <= l.Writable()
    case ReadFd(Some(d)) => |d| <= l.Writable() + EXTRA_SIZE
    case WriteFd(Some(n)) => n <= l.Readable()
    case _ => true
  }

  /** And room, where the operation has to make some. */
  predicate Safe(l: Layout, op: Op)
    requires l.Valid()
  {
    && Owed(l, op)
    && match op
       case Append(d) => l.RoomFor(|d|)
       case EnsureWritable(n) => l.RoomFor(n)
       case ReadFd(Some(d)) => |d| > l.Writable() ==> l.(write := l.size).RoomFor(|d| - l.Writable())
       case _ => true
  }

  /** The same operation on a plain byte string; `reserve` is the room in front. */
  function Effect(reserve: nat, c: bytes, op: Op): bytes {
    match op
    case Append(d) => c + d
    case Prepend(d) => if |d| > reserve then c else d + c
    case Retrieve(n) => if n >= |c| then [] else c[n..]
    case RetrieveAll => []
    case RetrieveAsString(n) => if n >= |c| then [] else c[n..]
    case EnsureWritable(_) => c
    case HasWritten(d) => c + d
    case ReadFd(None) => c
    case ReadFd(Some(d)) => c + d
    case WriteFd(None) => c
    case WriteFd(Some(n)) => if n >= |c| then [] else c[n..]
  }

  /** A buffer as a value. */
  datatype Value = Value(layout: Layout, contents: bytes) {
    predicate Valid() {
      layout.Valid() && |contents| == layout.Readable()
    }
  }

  function Do(v: Value, op: Op): (r: Value)
    requires v.Valid() && Safe(v.layout, op)
    ensures r.Valid()
  {
    Value(Move(v.layout, op), Effect(v.layout.read, v.contents, op))
  }

  /** A prepend within the reserve puts its bytes in front, and retrieving them undoes it; beyond the reserve nothing
      happens. */
  lemma PrependUndone(v: Value, d: bytes)
    requires v.Valid()
    ensures var r := Do(v, Prepend(d));
            if |d| <= v.layout.read then
              && d <= r.contents && |r.contents| == |d| + |v.contents|
              && Do(r, Retrieve(|d|)).contents == v.contents
            else r == v
  {
    if |d| <= v.layout.read {
      assert (d + v.contents)[|d|..] == v.contents;
    }
  }

  /** Retrieving drops just a prefix; what is appended comes out behind what was there. */
  lemma FirstInFirstOut(v: Value, d: bytes)
    requires v.Valid() && Safe(v.layout, Append(d))
    ensures Do(Do(v, Append(d)), Retrieve(|v.contents|)).contents == d
    ensures forall n :: 0 <= n <= |v.contents| ==> v.contents[..n] + Do(v, Retrieve(n)).contents == v.contents
    ensures Do(v, RetrieveAll).contents == []
  {
    assert (v.contents + d)[|v.contents|..] == d;
    forall n | 0 <= n <= |v.contents|
      ensures v.contents[..n] + Do(v, Retrieve(n)).contents == v.contents
    {
      assert v.contents == v.contents[..n] + v.contents[n..];
    }
  }

  /** The scatter read takes up to the writable bytes and 65536 more. */
  lemma ScatterRead(l: Layout, d: bytes)
    requires l.Valid()
    ensures Owed(l, ReadFd(Some(d))) <==> |d| <= l.size - l.write + 65536
  {
  }

  // ---- Two buffers -------------------------------------------------------

  /** A call on one of two buffers, or the exchange of the two. */
  datatype Call = On(first: bool, op: Op) | Exchange

  datatype Two = Two(a: Value, b: Value) {
    predicate Valid() {
      a.Valid() && b.Valid()
    }

    function At(first: bool): Value {
      if first then a else b
    }
  }

  predicate Possible(t: Two, call: Call)
    requires t.Valid()
  {
    call.On? ==> Safe(t.At(call.first).layout, call.op)
  }

  function Make(t: Two, call: Call): (r: Two)
    requires t.Valid() && Possible(t, call)
    ensures r.Valid()
  {
    match call
    case On(true, op) => Two(Do(t.a, op), t.b)
    case On(false, op) => Two(t.a, Do(t.b, op))
    case Exchange => Two(t.b, t.a)
  }

  predicate AllPossible(t: Two, calls: seq<Call>)
    requires t.Valid()
    decreases calls
  {
    calls == [] || (Possible(t, calls[0]) && AllPossible(Make(t, calls[0]), calls[1..]))
  }

  function MakeAll(t: Two, calls: seq<Call>): (r: Two)
    requires t.Valid() && AllPossible(t, calls)
    ensures r.Valid()
    decreases calls
  {
    if calls == [] then t else MakeAll(Make(t, calls[0]), calls[1..])
  }

  const DEFAULT: Value := Value(Layout(1032, 8, 8), [])

  /** The failure is reachable from default-constructed buffers: fill one, use any part of the reserve, append a
      byte; and `swap` carries it to a buffer that no prepend has touched. */
  lemma BoundaryIsReachable(fill: bytes, header: bytes)
    requires |fill| == INITIALIZE_SIZE && 1 <= |header| <= CHEAP_PREPEND
    ensures var t, calls := Two(DEFAULT, DEFAULT), [On(true, Append(fill)), On(true, Prepend(header)), Exchange];
            && t.Valid() && AllPossible(t, calls)
            && MakeAll(t, calls) == Two(DEFAULT, Value(Layout(1032, 8 - |header|, 1032), header + fill))
    ensures var l := Layout(1032, 8 - |header|, 1032); !l.RoomFor(1) && !l.MakeSpace(1).Valid()
  {
    var l := Layout(1032, 8 - |header|, 1032);
    MakeSpaceStaysInside(l, 1);
    FillDefault();
    var t, calls := Two(DEFAULT, DEFAULT), [On(true, Append(fill)), On(true, Prepend(header)), Exchange];
    var filled := Two(Value(Layout(1032, 8, 1032), fill), DEFAULT);
    assert Make(t, calls[0]) == filled by { assert [] + fill == fill; }
    var full := Two(Value(l, header + fill), DEFAULT);
    assert Make(filled, calls[1]) == full;
    assert calls[1..][0] == calls[1] && calls[1..][1..] == [Exchange] && [Exchange][1..] == [];
    assert MakeAll(full, [Exchange]) == Two(DEFAULT, full.a);
  }

  lemma FillDefault()
    ensures DEFAULT.layout.Valid() && DEFAULT.layout.RoomFor(INITIALIZE_SIZE)
    ensures DEFAULT.layout.Append(INITIALIZE_SIZE) == Layout(1032, 8, 1032)
  {
  }

  /** Bytes an operation makes room for. */
  function Stored(op: Op): nat {
    match op
    case Append(d) => |d|
    case EnsureWritable(n) => n
    case HasWritten(d) => |d|
    case ReadFd(Some(d)) => |d|
    case _ => 0
  }

  function AllStored(calls: seq<Call>): nat {
    if calls == [] then 0
    else AllStored(calls[1..]) + if calls[0].On? then Stored(calls[0].op) else 0
  }

  /** Kernel and callers keep to what they owe as far as the calls are possible. */
  predicate AllOwed(t: Two, calls: seq<Call>)
    requires t.Valid()
    decreases calls
  {
    calls != [] ==>
      && (calls[0].On? ==> Owed(t.At(calls[0].first).layout, calls[0].op))
      && (Possible(t, calls[0]) ==> AllOwed(Make(t, calls[0]), calls[1..]))
  }

  /** An intact reserve, with `limit` bytes at most in front of the write cursor. */
  predicate ReserveKept(l: Layout, limit: nat) {
    l.Valid() && l.read >= CHEAP_PREPEND && l.write <= limit
  }

  lemma StaysKept(l: Layout, op: Op, limit: nat)
    requires ReserveKept(l, limit) && limit + Stored(op) <= MAX_SIZE && !op.Prepend? && Owed(l, op)
    ensures Safe(l, op) && ReserveKept(Move(l, op), limit + Stored(op))
  {
  }

  /** The condition only fails after a prepend on one of the two: without one it is kept for ever, exchanges
      included. */
  lemma {:induction false} SafeWithoutPrepend(t: Two, calls: seq<Call>, limit: nat)
    requires t.Valid() && ReserveKept(t.a.layout, limit) && ReserveKept(t.b.layout, limit)
    requires forall call :: call in calls ==> call.Exchange? || !call.op.Prepend?
    requires limit + AllStored(calls) <= MAX_SIZE && AllOwed(t, calls)
    ensures AllPossible(t, calls)
    ensures MakeAll(t, calls).a.layout.read >= CHEAP_PREPEND && MakeAll(t, calls).b.layout.read >= CHEAP_PREPEND
    decreases calls
  {
    if calls != [] {
      var call := calls[0];
      assert call in calls;
      var stored := if call.On? then Stored(call.op) else 0;
      if call.On? {
        StaysKept(t.At(call.first).layout, call.op, limit);
      }
      SafeWithoutPrepend(Make(t, call), calls[1..], limit + stored);
    }
  }

  // ---- Streams through the buffers ---------------------------------------

  /** Bytes an operation hands to the file descriptor. */
  function Sent(c: bytes, op: Op): bytes {
    match op
    case WriteFd(Some(n)) => if n <= |c| then c[..n] else c
    case _ => []
  }

  /** Bytes an operation adds at the end. */
  function Added(op: Op): bytes {
    match op
    case Append(d) => d
    case HasWritten(d) => d
    case ReadFd(Some(d)) => d
    case _ => []
  }

  /** Operations that relay: they add at the end, make room or write out. */
  predicate Relays(op: Op) {
    op.Append? || op.HasWritten? || op.EnsureWritable? || op.ReadFd? || op.WriteFd?
  }

  // A stream stays with its storage: `first` says which buffer has it now.

  function AllSent(t: Two, calls: seq<Call>, first: bool): bytes
    requires t.Valid() && AllPossible(t, calls)
    decreases calls
  {
    if calls == [] then []
    else
      var t' := Make(t, calls[0]);
      match calls[0]
      case Exchange => AllSent(t', calls[1..], !first)
      case On(f, op) => (if f == first then Sent(t.At(f).contents, op) else []) + AllSent(t', calls[1..], first)
  }

  function AllAdded(calls: seq<Call>, first: bool): bytes
    decreases calls
  {
    if calls == [] then []
    else
      match calls[0]
      case Exchange => AllAdded(calls[1..], !first)
      case On(f, op) => (if f == first then Added(op) else []) + AllAdded(calls[1..], first)
  }

  /** Which buffer has the stream in the end. */
  function Place(calls: seq<Call>, first: bool): bool
    decreases calls
  {
    if calls == [] then first else Place(calls[1..], if calls[0].Exchange? then !first else first)
  }

  /** Relaying through the buffers, with any short reads and writes and any exchanges, neither loses nor reorders
      a byte of either stream. */
  lemma {:induction false} StreamConserved(t: Two, calls: seq<Call>, first: bool)
    requires t.Valid() && AllPossible(t, calls)
    requires forall call :: call in calls ==> call.Exchange? || Relays(call.op)
    ensures AllSent(t, calls, first) + MakeAll(t, calls).At(Place(calls, first)).contents
         == t.At(first).contents + AllAdded(calls, first)
    decreases calls
  {
    var c := t.At(first).contents;
    if calls == [] {
      assert [] + c == c + [];
    } else {
      var call := calls[0];
      assert call in calls;
      var t' := Make(t, call);
      if call.Exchange? {
        StreamConserved(t', calls[1..], !first);
      } else {
        var sent, added: bytes := [], [];
        if call.first == first {
          StepConserved(t.At(first), call.op);
          sent, added := Sent(c, call.op), Added(call.op);
        }
        StreamConserved(t', calls[1..], first);
        Regroup(sent, AllSent(t', calls[1..], first), MakeAll(t, calls).At(Place(calls, first)).contents,
                t'.At(first).contents, c, added, AllAdded(calls[1..], first));
      }
    }
  }

  lemma StepConserved(v: Value, op: Op)
    requires v.Valid() && Safe(v.layout, op) && Relays(op)
    ensures Sent(v.contents, op) + Do(v, op).contents == v.contents + Added(op)
  {
  }

  lemma Regroup(s: bytes, sent: bytes, left: bytes, c': bytes, c: bytes, now: bytes, more: bytes)
    requires s + c' == c + now && sent + left == c' + more
    ensures (s + sent) + left == c + (now + more)
  {
    calc {
      (s + sent) + left;
      s + (sent + left);
      (s + c') + more;
      c + (now + more);
    }
  }

  lemma Rejoin(c: bytes, d: bytes, k: nat)
    requires k <= |d|
    ensures (c + d[..k]) + d[k..] == c + d
  {
  }

  // ---- The class ---------------------------------------------------------

  class Buffer {
    var data: array<byte>
    var readIndex: nat
    var writeIndex: nat

    ghost predicate Valid()
      reads this
    {
      Shape().Valid()
    }

    function Shape(): Layout
      reads this
    {
      Layout(data.Length, readIndex, writeIndex)
    }

    ghost function AsValue(): Value
      requires Valid()
      reads this, data
    {
      Value(Shape(), Contents())
    }

    /** The bytes the buffer stands for. */
    ghost function Contents(): bytes
      requires Valid()
      reads this, data
    {
      data[readIndex..writeIndex]
    }

    constructor (initializeSize: nat)
      requires CHEAP_PREPEND + initializeSize <= MAX_SIZE
      ensures Valid() && fresh(data)
      ensures Shape() == Layout(CHEAP_PREPEND + initializeSize, CHEAP_PREPEND, CHEAP_PREPEND)
      ensures Contents() == []
    {
      data := new byte[CHEAP_PREPEND + initializeSize](_ => 0);
      readIndex, writeIndex := CHEAP_PREPEND, CHEAP_PREPEND;
    }

    method Retrieve(len: nat)
      requires Valid()
      modifies this`readIndex, this`writeIndex
      ensures Valid() && Shape() == old(Shape()).Retrieve(len)
      ensures Contents() == if len >= |old(Contents())| then [] else old(Contents())[len..]
    {
      if len >= writeIndex - readIndex {
        RetrieveAll();
      } else {
        readIndex := readIndex + len;
      }
    }

    method RetrieveAll()
      requires Valid()
      modifies this`readIndex, this`writeIndex
      ensures Valid() && Contents() == []
      ensures Shape() == Layout(data.Length, CHEAP_PREPEND, CHEAP_PREPEND)
    {
      readIndex, writeIndex := CHEAP_PREPEND, CHEAP_PREPEND;
    }

    /** Copies `source` to position `at`, as `std::copy` does. */
    method Copy(source: bytes, at: nat)
      requires at + |source| <= data.Length
      modifies data
      ensures data[at..at + |source|] == source
      ensures data[..at] == old(data[..at]) && data[at + |source|..] == old(data[at + |source|..])
    {
      var k := 0;
      while k < |source|
        invariant k <= |source|
        invariant data[at..at + k] == source[..k]
        invariant data[..at] == old(data[..at])
        invariant data[at + |source|..] == old(data[at + |source|..])
      {
        data[at + k] := source[k];
        k := k + 1;
      }
    }

    method Append(source: bytes)
      requires Valid() && Shape().RoomFor(|source|)
      modifies this, data
      ensures Valid() && (data == old(data) || fresh(data))
      ensures Shape() == old(Shape()).Append(|source|)
      ensures Contents() == old(Contents()) + source
    {
      EnsureWritable(|source|);
      Fill(source);
    }

    method EnsureWritable(len: nat)
      requires Valid() && Shape().RoomFor(len)
      modifies this, data
      ensures Valid() && (data == old(data) || fresh(data))
      ensures Shape() == old(Shape()).EnsureWritable(len) && Shape().Writable() >= len
      ensures Contents() == old(Contents())
    {
      if data.Length - writeIndex < len {
        MakeSpaceStaysInside(Shape(), len);
        MakeSpace(len);
      }
    }

    method MakeSpace(len: nat)
      requires Valid() && Shape().Writable() < len && Shape().RoomFor(len)
      modifies this, data
      ensures Valid() && (data == old(data) || fresh(data))
      ensures Shape() == old(Shape()).MakeSpace(len)
      ensures Contents() == old(Contents())
    {
      MakeSpaceStaysInside(Shape(), len);
      if Shape().SpaceLeft() >= len {
        var readable := writeIndex - readIndex;
        MoveDown(readable);
        readIndex, writeIndex := CHEAP_PREPEND, CHEAP_PREPEND + readable;
      } else {
        var bigger := new byte[writeIndex + len](_ => 0);
        ghost var was := data[..];
        forall k | 0 <= k < data.Length {
          bigger[k] := data[k];
        }
        data := bigger;
        assert data[..|was|] == was;
        assert data[readIndex..writeIndex] == was[readIndex..writeIndex];
      }
    }

    /** The overlapping move of the readable bytes to the start of the payload area, in ascending order. */
    method MoveDown(readable: nat)
      requires CHEAP_PREPEND <= readIndex && readIndex + readable <= data.Length
      modifies data
      ensures data[CHEAP_PREPEND..CHEAP_PREPEND + readable] == old(data[readIndex..readIndex + readable])
    {
      var k := 0;
      while k < readable
        invariant k <= readable
        invariant data[CHEAP_PREPEND..CHEAP_PREPEND + k] == old(data[readIndex..readIndex + k])
        invariant forall i :: CHEAP_PREPEND + k <= i < data.Length ==> data[i] == old(data[i])
      {
        data[CHEAP_PREPEND + k] := data[readIndex + k];
        k := k + 1;
      }
    }

    method Prepend(source: bytes)
      requires Valid()
      modifies this`readIndex, data
      ensures Valid()
      ensures Shape() == Move(old(Shape()), Op.Prepend(source))
      ensures Contents() == if |source| > old(readIndex) then old(Contents()) else source + old(Contents())
    {
      if |source| > readIndex {
        return;
      }
      ghost var c := Contents();
      readIndex := readIndex - |source|;
      Copy(source, readIndex);
      assert data[readIndex + |source|..writeIndex] == c by {
        assert data[readIndex + |source|..writeIndex] == data[readIndex + |source|..][..|c|];
      }
      assert Contents() == data[readIndex..readIndex + |source|] + data[readIndex + |source|..writeIndex];
    }

    /** The caller has filled `len` bytes behind the write cursor; nothing tests that there was room. */
    method HasWritten(len: nat)
      requires Valid()
      modifies this`writeIndex
      ensures Shape() == old(Shape()).(write := old(writeIndex) + len)
      ensures Valid() <==> len <= old(Shape().Writable())
      ensures Valid() ==> Contents() == old(Contents()) + data[old(writeIndex)..old(writeIndex) + len]
    {
      writeIndex := writeIndex + len;
    }

    /** Asked for more than there is, the string goes on with what lies behind the write cursor. */
    method RetrieveAsString(len: nat) returns (msg: bytes)
      requires Valid() && Owed(Shape(), Op.RetrieveAsString(len))
      modifies this`readIndex, this`writeIndex
      ensures Valid() && Shape() == old(Shape()).Retrieve(len) && |msg| == len
      ensures len <= |old(Contents())| ==> msg + Contents() == old(Contents())
      ensures len > |old(Contents())| ==> Contents() == [] && old(Contents()) < msg
    {
      msg := data[readIndex..readIndex + len];
      Retrieve(len);
    }

    method Swap(other: Buffer)
      requires Valid() && other.Valid()
      modifies this, other
      ensures Valid() && other.Valid()
      ensures data == old(other.data) && other.data == old(data)
      ensures Shape() == old(other.Shape()) && other.Shape() == old(Shape())
      ensures Contents() == old(other.Contents()) && other.Contents() == old(Contents())
    {
      other.data, data := data, other.data;
      other.writeIndex, writeIndex := writeIndex, other.writeIndex;
      other.readIndex, readIndex := readIndex, other.readIndex;
    }

    /** The kernel fills the writable region first and the extra array with the rest. */
    method ReadFd(arrived: Option<bytes>) returns (n: int)
      requires Valid() && Safe(Shape(), Op.ReadFd(arrived))
      modifies this, data
      ensures Valid() && (data == old(data) || fresh(data))
      ensures Shape() == Move(old(Shape()), Op.ReadFd(arrived))
      ensures n == if arrived.None? then -1 else |arrived.value|
      ensures Contents() == if arrived.None? then old(Contents()) else old(Contents()) + arrived.value
    {
      if arrived.None? {
        return -1;
      }
      n := |arrived.value|;
      var writable := data.Length - writeIndex;
      if n <= writable {
        Fill(arrived.value);
      } else {
        var extra := arrived.value[writable..];
        Fill(arrived.value[..writable]);
        Append(extra);
        Rejoin(old(Contents()), arrived.value, writable);
      }
    }

    /** The kernel writes behind the cursor, and the cursor follows. */
    method Fill(source: bytes)
      requires Valid() && |source| <= Shape().Writable()
      modifies this`writeIndex, data
      ensures Valid() && Shape() == old(Shape()).(write := old(writeIndex) + |source|)
      ensures Contents() == old(Contents()) + source
    {
      ghost var c := Contents();
      Copy(source, writeIndex);
      assert data[readIndex..writeIndex] == c by {
        assert data[readIndex..writeIndex] == data[..writeIndex][readIndex..];
      }
      HasWritten(|source|);
    }

    /** The kernel takes a prefix of the readable bytes. */
    method WriteFd(taken: Option<nat>) returns (n: int, ghost sent: bytes)
      requires Valid() && Safe(Shape(), Op.WriteFd(taken))
      modifies this`readIndex, this`writeIndex
      ensures Valid() && Shape() == Move(old(Shape()), Op.WriteFd(taken))
      ensures n == if taken.None? then -1 else taken.value
      ensures sent == Sent(old(Contents()), Op.WriteFd(taken)) && sent + Contents() == old(Contents())
    {
      sent := [];
      if taken.None? {
        return -1, [];
      }
      sent := Contents()[..taken.value];
      Retrieve(taken.value);
      n := taken.value;
    }

    method Perform(op: Op)
      requires Valid() && Safe(Shape(), op)
      modifies this, data
      ensures Valid() && (data == old(data) || fresh(data))
      ensures AsValue() == Do(old(AsValue()), op)
    {
      match op
      case Append(d) => Append(d);
      case Prepend(d) => Prepend(d);
      case Retrieve(n) => Retrieve(n);
      case RetrieveAll => RetrieveAll();
      case RetrieveAsString(n) => var _ := RetrieveAsString(n);
      case EnsureWritable(n) => EnsureWritable(n);
      case HasWritten(d) => Fill(d);
      case ReadFd(arrived) => var _ := ReadFd(arrived);
      case WriteFd(taken) => var _, _ := WriteFd(taken);
    }
  }

  /** One call on two separate buffers. */
  method PerformOne(a: Buffer, b: Buffer, call: Call)
    requires a.Valid() && b.Valid() && a != b && a.data != b.data
    requires Possible(Two(a.AsValue(), b.AsValue()), call)
    modifies a, b, a.data, b.data
    ensures a.Valid() && b.Valid() && a.data != b.data
    ensures a.data in {old(a.data), old(b.data)} || fresh(a.data)
    ensures b.data in {old(a.data), old(b.data)} || fresh(b.data)
    ensures Two(a.AsValue(), b.AsValue()) == Make(old(Two(a.AsValue(), b.AsValue())), call)
  {
    match call
    case On(true, op) => a.Perform(op);
    case On(false, op) => b.Perform(op);
    case Exchange => a.Swap(b);
  }

  /** Every sequence of calls on two buffers, exchanges included, is a sequence of operations on two byte strings. */
  method PerformAll(a: Buffer, b: Buffer, calls: seq<Call>)
    requires a.Valid() && b.Valid() && a != b && a.data != b.data
    requires AllPossible(Two(a.AsValue(), b.AsValue()), calls)
    modifies a, b, a.data, b.data
    ensures a.Valid() && b.Valid()
    ensures Two(a.AsValue(), b.AsValue()) == MakeAll(old(Two(a.AsValue(), b.AsValue())), calls)
  {
    var k := 0;
    ghost var t := Two(a.AsValue(), b.AsValue());
    assert calls[0..] == calls;
    while k < |calls|
      invariant k <= |calls| && a.Valid() && b.Valid() && a.data != b.data
      invariant a.data in {old(a.data), old(b.data)} || fresh(a.data)
      invariant b.data in {old(a.data), old(b.data)} || fresh(b.data)
      invariant AllPossible(Two(a.AsValue(), b.AsValue()), calls[k..])
      invariant MakeAll(t, calls) == MakeAll(Two(a.AsValue(), b.AsValue()), calls[k..])
    {
      assert calls[k..][0] == calls[k] && calls[k..][1..] == calls[k + 1..];
      PerformOne(a, b, calls[k]);
      k := k + 1;
    }
  }
}
