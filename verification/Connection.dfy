/** The output side of `net/TcpConnection.cpp`: what is submitted reaches the socket or the send buffer. */
module Connection {
  import opened Bytes
  import opened Buffers
  import opened Streams
  import opened Codec

  /** Result of `::write`: the number of bytes taken, or an error. */
  type WriteResult = Option<nat>

  /** Callbacks posted to the loop. */
  datatype Notice = WriteComplete | HighWater

  /** Send buffer, write interest, and the bytes the socket has taken. */
  datatype Out = Out(buffer: Value, writing: bool, wire: bytes) {
    predicate Valid() {
      buffer.Valid()
    }

    /** Whether a send tries to write directly. */
    predicate Idle() {
      !writing && buffer.contents == []
    }

    /** The stream so far: taken by the socket, or waiting. */
    function Stream(): bytes {
      wire + buffer.contents
    }
  }

  predicate Answers(r: WriteResult, size: nat) {
    r.Some? ==> r.value <= size
  }

  /** An answer the kernel may give for `size` bytes. */
  function Limit(r: WriteResult, size: nat): (limited: WriteResult)
    ensures Answers(limited, size) && (Answers(r, size) ==> limited == r)
  {
    if r.Some? && r.value > size then Some(size) else r
  }

  function Taken(r: WriteResult, size: nat): (n: nat)
    ensures n <= size && (Answers(r, size) ==> n == if r.Some? then r.value else 0)
  {
    if Limit(r, size).Some? then Limit(r, size).value else 0
  }

  /** How much of a message a send writes at once. */
  function AtOnce(o: Out, r: WriteResult, size: nat): (n: nat)
    ensures n <= size
  {
    if o.Idle() then Taken(r, size) else 0
  }

  // ---- Single pieces of work ---------------------------------------------

  predicate BytesFit(o: Out, msg: bytes, r: WriteResult)
    requires o.Valid()
  {
    o.buffer.layout.RoomFor(|msg| - AtOnce(o, r, |msg|))
  }

  /** `sendInLoop(const char*, size_t)`. */
  function AfterBytes(o: Out, msg: bytes, r: WriteResult): (o': Out)
    requires o.Valid() && BytesFit(o, msg, r)
    ensures o'.Valid()
  {
    var n := AtOnce(o, r, |msg|);
    if n == |msg| then o.(wire := o.wire + msg)
    else Out(Do(o.buffer, Append(msg[n..])), true, o.wire + msg[..n])
  }

  predicate BufferFits(o: Out, held: Value)
    requires o.Valid()
  {
    held.Valid() && (o.buffer.contents != [] ==> o.buffer.layout.RoomFor(|held.contents|))
  }

  /** `sendInLoop(Buffer&)` with a buffer of the caller's: the send buffer takes over its storage, if it has no
      contents of its own. */
  function AfterBuffer(o: Out, held: Value, r: WriteResult): (o': Out)
    requires o.Valid() && BufferFits(o, held)
    ensures o'.Valid()
  {
    var msg := held.contents;
    var n := AtOnce(o, r, |msg|);
    if n == |msg| then o.(wire := o.wire + msg)
    else Out(if o.buffer.contents == [] then Do(held, Retrieve(n)) else Do(o.buffer, Append(msg)),
             true, o.wire + msg[..n])
  }

  predicate SelfFits(o: Out)
    requires o.Valid()
  {
    o.buffer.layout.RoomFor(|o.buffer.contents|)
  }

  /** `sendInLoop(Buffer&)` with the send buffer itself: it is appended to itself, and then emptied. */
  function AfterSelf(o: Out, r: WriteResult): (o': Out)
    requires o.Valid() && SelfFits(o)
    ensures o'.Valid()
  {
    if o.buffer.contents == [] then
      if o.Idle() && r.Some? then o.(buffer := Do(o.buffer, Retrieve(0))) else o
    else o.(buffer := Do(Do(o.buffer, Append(o.buffer.contents)), RetrieveAll), writing := true)
  }

  /** `handleWritable`; its last act, `shutdownInLoop`, is without effect while disconnecting. */
  function AfterWritable(o: Out, r: WriteResult): (o': Out)
    requires o.Valid()
    ensures o'.Valid()
  {
    var n := Taken(r, |o.buffer.contents|);
    if !o.writing || n == 0 then o
    else Out(Do(o.buffer, Retrieve(n)), n < |o.buffer.contents|, o.wire + o.buffer.contents[..n])
  }

  /** Message sizes stay within the encoder's integers. */
  predicate SizeOk<M>(p: Pool<M>, m: M) {
    && WORD + TotalLen(p, m) <= INT32_MAX
    && (p.serialize(m).Some? ==> |p.serialize(m).value| == p.byteSize(m))
  }

  predicate DirectFits<M>(p: Pool<M>, o: Out, m: M)
    requires o.Valid()
  {
    SizeOk(p, m) && o.buffer.layout.RoomFor(WORD + TotalLen(p, m))
  }

  /** `ProtobufHandler::Send`: a frame goes into the send buffer, and write interest is left as it is. */
  function AfterDirect<M>(p: Pool<M>, o: Out, m: M): (o': Out)
    requires o.Valid() && DirectFits(p, o, m)
    ensures o'.Valid()
  {
    var size := WORD + TotalLen(p, m);
    o.(buffer := Do(o.buffer, if p.serialize(m).Some? then Append(Frame(p, m)) else EnsureWritable(size)))
  }

  // ---- Runs --------------------------------------------------------------

  /** Work for a connection, with the kernel's answers. A caller's buffer comes in any state; `SendSelf` passes
      the connection its own send buffer; `Close` is the `ignoreAll` of closing and destruction. */
  datatype Work<!M> =
    | SendBytes(msg: bytes, result: WriteResult)
    | SendBuffer(held: Value, result: WriteResult)
    | SendSelf(result: WriteResult)
    | Writable(result: WriteResult)
    | Direct(m: M)
    | Close

  predicate Fits<M>(p: Pool<M>, o: Out, w: Work<M>)
    requires o.Valid()
  {
    match w
    case SendBytes(msg, r) => BytesFit(o, msg, r)
    case SendBuffer(held, _) => BufferFits(o, held)
    case SendSelf(_) => SelfFits(o)
    case Writable(_) => true
    case Direct(m) => DirectFits(p, o, m)
    case Close => true
  }

  function After<M>(p: Pool<M>, o: Out, w: Work<M>): (o': Out)
    requires o.Valid() && Fits(p, o, w)
    ensures o'.Valid()
  {
    match w
    case SendBytes(msg, r) => AfterBytes(o, msg, r)
    case SendBuffer(held, r) => AfterBuffer(o, held, r)
    case SendSelf(r) => AfterSelf(o, r)
    case Writable(r) => AfterWritable(o, r)
    case Direct(m) => AfterDirect(p, o, m)
    case Close => o.(writing := false)
  }

  predicate AllFit<M>(p: Pool<M>, o: Out, ws: seq<Work<M>>)
    requires o.Valid()
    decreases ws
  {
    ws == [] || (Fits(p, o, ws[0]) && AllFit(p, After(p, o, ws[0]), ws[1..]))
  }

  function AfterAll<M>(p: Pool<M>, o: Out, ws: seq<Work<M>>): (o': Out)
    requires o.Valid() && AllFit(p, o, ws)
    ensures o'.Valid()
    decreases ws
  {
    if ws == [] then o else AfterAll(p, After(p, o, ws[0]), ws[1..])
  }

  // ---- Conservation ------------------------------------------------------

  /** The bytes a piece of work adds to the stream. */
  function Submitted<M>(p: Pool<M>, w: Work<M>): bytes {
    match w
    case SendBytes(msg, _) => msg
    case SendBuffer(held, _) => held.contents
    case Direct(m) => if Representable(p, m) then Frame(p, m) else []
    case _ => []
  }

  function AllSubmitted<M>(p: Pool<M>, ws: seq<Work<M>>): bytes {
    if ws == [] then [] else Submitted(p, ws[0]) + AllSubmitted(p, ws[1..])
  }

  /** The work that loses bytes: the send buffer is sent to itself while it has contents. */
  predicate LosesNow<M>(o: Out, w: Work<M>) {
    w.SendSelf? && o.buffer.contents != []
  }

  predicate Loses<M>(p: Pool<M>, o: Out, ws: seq<Work<M>>)
    requires o.Valid() && AllFit(p, o, ws)
    decreases ws
  {
    ws != [] && (LosesNow(o, ws[0]) || Loses(p, After(p, o, ws[0]), ws[1..]))
  }

  /** Writing a prefix of a message directly is only tried behind an empty buffer. */
  lemma BytesConserved(o: Out, msg: bytes, r: WriteResult)
    requires o.Valid() && BytesFit(o, msg, r)
    ensures AfterBytes(o, msg, r).Stream() == o.Stream() + msg
  {
    SplitMessage(o.wire, o.buffer.contents, msg, AtOnce(o, r, |msg|));
  }

  lemma BufferConserved(o: Out, held: Value, r: WriteResult)
    requires o.Valid() && BufferFits(o, held)
    ensures AfterBuffer(o, held, r).Stream() == o.Stream() + held.contents
  {
    SplitMessage(o.wire, o.buffer.contents, held.contents, AtOnce(o, r, |held.contents|));
  }

  lemma SplitMessage(wire: bytes, kept: bytes, msg: bytes, n: nat)
    requires n <= |msg| && (n > 0 ==> kept == [])
    ensures (wire + msg[..n]) + (kept + msg[n..]) == (wire + kept) + msg
    ensures kept == [] ==> (wire + msg[..n]) + msg[n..] == (wire + kept) + msg
    ensures n == |msg| ==> (wire + msg) + kept == (wire + kept) + msg
    ensures n == 0 ==> msg[n..] == msg && msg[..n] == []
  {
    assert msg == msg[..n] + msg[n..];
    if n == 0 {
      assert msg[..n] == [] && wire + msg[..n] == wire;
    }
  }

  lemma WritableConserved(o: Out, r: WriteResult)
    requires o.Valid()
    ensures AfterWritable(o, r).Stream() == o.Stream()
  {
    var c := o.buffer.contents;
    var n := Taken(r, |c|);
    assert (o.wire + c[..n]) + c[n..] == o.wire + c;
    assert n == |c| ==> c[n..] == [];
  }

  lemma DirectConserved<M>(p: Pool<M>, o: Out, m: M)
    requires o.Valid() && DirectFits(p, o, m)
    ensures AfterDirect(p, o, m).Stream() == o.Stream() + if Representable(p, m) then Frame(p, m) else []
  {
    if p.serialize(m).Some? {
      assert o.wire + (o.buffer.contents + Frame(p, m)) == o.Stream() + Frame(p, m);
    } else {
      assert o.Stream() + [] == o.Stream();
    }
  }

  /** One piece of work adds exactly what it submits to the stream, if and only if it does not lose the send
      buffer. */
  lemma StepConserves<M>(p: Pool<M>, o: Out, w: Work<M>)
    requires o.Valid() && Fits(p, o, w)
    ensures After(p, o, w).Stream() == o.Stream() + Submitted(p, w) <==> !LosesNow(o, w)
    ensures LosesNow(o, w) ==> After(p, o, w).Stream() == o.wire && Submitted(p, w) == []
  {
    assert o.Stream() + [] == o.Stream();
    match w
    case SendBytes(msg, r) => BytesConserved(o, msg, r);
    case SendBuffer(held, r) => BufferConserved(o, held, r);
    case SendSelf(_) => assert o.wire + [] == o.wire;
    case Writable(r) => WritableConserved(o, r);
    case Direct(m) => DirectConserved(p, o, m);
    case Close =>
  }

  /** Any mix of work with any partial or failed writes: the stream is everything submitted, in order, if and only
      if the send buffer was never sent to itself while it had contents. */
  lemma Conservation<M>(p: Pool<M>, o: Out, ws: seq<Work<M>>)
    requires o.Valid() && AllFit(p, o, ws)
    ensures AfterAll(p, o, ws).Stream() == o.Stream() + AllSubmitted(p, ws) <==> !Loses(p, o, ws)
  {
    if Loses(p, o, ws) {
      StreamShrinks(p, o, ws);
    } else {
      StreamKept(p, o, ws);
    }
  }

  lemma {:induction false} StreamKept<M>(p: Pool<M>, o: Out, ws: seq<Work<M>>)
    requires o.Valid() && AllFit(p, o, ws) && !Loses(p, o, ws)
    ensures AfterAll(p, o, ws).Stream() == o.Stream() + AllSubmitted(p, ws)
    decreases ws
  {
    if ws == [] {
      assert o.Stream() + [] == o.Stream();
    } else {
      StepConserves(p, o, ws[0]);
      StreamKept(p, After(p, o, ws[0]), ws[1..]);
      Associate(o.Stream(), Submitted(p, ws[0]), AllSubmitted(p, ws[1..]));
    }
  }

  lemma Associate(a: bytes, b: bytes, c: bytes)
    ensures (a + b) + c == a + (b + c)
  {
  }

  /** The stream is never longer than what was submitted, and once bytes are lost it stays shorter. */
  lemma {:induction false} StreamShrinks<M>(p: Pool<M>, o: Out, ws: seq<Work<M>>)
    requires o.Valid() && AllFit(p, o, ws)
    ensures |AfterAll(p, o, ws).Stream()| <= |o.Stream()| + |AllSubmitted(p, ws)|
    ensures Loses(p, o, ws) ==> |AfterAll(p, o, ws).Stream()| < |o.Stream()| + |AllSubmitted(p, ws)|
    decreases ws
  {
    if ws != [] {
      StepShrinks(p, o, ws[0]);
      StreamShrinks(p, After(p, o, ws[0]), ws[1..]);
    }
  }

  lemma StepShrinks<M>(p: Pool<M>, o: Out, w: Work<M>)
    requires o.Valid() && Fits(p, o, w)
    ensures |After(p, o, w).Stream()| <= |o.Stream()| + |Submitted(p, w)|
    ensures LosesNow(o, w) ==> |After(p, o, w).Stream()| < |o.Stream()| + |Submitted(p, w)|
  {
    StepConserves(p, o, w);
  }

  // ---- What reaches the socket -------------------------------------------

  /** A send writes exactly when nothing is pending and no write interest is on, and then exactly what the kernel
      takes reaches the socket, no more and no less; the rest is all that is pending. */
  lemma SendWrites(o: Out, msg: bytes, r: WriteResult)
    requires o.Valid() && BytesFit(o, msg, r) && Answers(r, |msg|)
    ensures var o' := AfterBytes(o, msg, r);
            if !o.writing && o.buffer.contents == [] && r.Some?
            then o'.wire == o.wire + msg[..r.value] && o'.buffer.contents == msg[r.value..]
            else o'.wire == o.wire && o'.buffer.contents == o.buffer.contents + msg
  {
    assert msg[..0] == [] && o.wire + [] == o.wire && msg[0..] == msg && [] + msg == msg;
    assert o.buffer.contents + [] == o.buffer.contents;
    assert r.Some? && r.value == |msg| ==> msg[..r.value] == msg && msg[r.value..] == [];
  }

  lemma SendBufferWrites(o: Out, held: Value, r: WriteResult)
    requires o.Valid() && BufferFits(o, held) && Answers(r, |held.contents|)
    ensures var o', msg := AfterBuffer(o, held, r), held.contents;
            if !o.writing && o.buffer.contents == [] && r.Some?
            then o'.wire == o.wire + msg[..r.value] && o'.buffer.contents == msg[r.value..]
            else o'.wire == o.wire && o'.buffer.contents == o.buffer.contents + msg
  {
    var msg := held.contents;
    assert msg[..0] == [] && o.wire + [] == o.wire && msg[0..] == msg && [] + msg == msg;
    assert o.buffer.contents + [] == o.buffer.contents;
    assert r.Some? && r.value == |msg| ==> msg[..r.value] == msg && msg[r.value..] == [];
  }

  /** A writable event writes exactly when write interest is on, from the front of what is pending; interest goes
      off exactly when nothing is left of it. */
  lemma WritableWrites(o: Out, r: WriteResult)
    requires o.Valid() && Answers(r, |o.buffer.contents|)
    ensures var o', c := AfterWritable(o, r), o.buffer.contents;
            if o.writing && r.Some?
            then o'.wire == o.wire + c[..r.value] && o'.buffer.contents == c[r.value..]
                 && (o'.writing <==> r.value == 0 || r.value < |c|)
            else o' == o
  {
    var c := o.buffer.contents;
    assert c[..0] == [] && o.wire + [] == o.wire && c[0..] == c && c[|c|..] == [];
  }

  /** How many bytes the kernel takes by the write this work issues, if it issues one. */
  function Wrote<M>(o: Out, w: Work<M>): nat {
    match w
    case SendBytes(msg, r) => if !o.writing && o.buffer.contents == [] then Taken(r, |msg|) else 0
    case SendBuffer(held, r) => if !o.writing && o.buffer.contents == [] then Taken(r, |held.contents|) else 0
    case Writable(r) => if o.writing then Taken(r, |o.buffer.contents|) else 0
    case _ => 0
  }

  function AllWrote<M>(p: Pool<M>, o: Out, ws: seq<Work<M>>): nat
    requires o.Valid() && AllFit(p, o, ws)
    decreases ws
  {
    if ws == [] then 0 else Wrote(o, ws[0]) + AllWrote(p, After(p, o, ws[0]), ws[1..])
  }

  lemma StepWrites<M>(p: Pool<M>, o: Out, w: Work<M>)
    requires o.Valid() && Fits(p, o, w)
    ensures o.wire <= After(p, o, w).wire && |After(p, o, w).wire| == |o.wire| + Wrote(o, w)
  {
  }

  /** Over every run the socket gets exactly as many bytes as the kernel took, behind those it had. */
  lemma {:induction false} SocketGets<M>(p: Pool<M>, o: Out, ws: seq<Work<M>>)
    requires o.Valid() && AllFit(p, o, ws)
    ensures o.wire <= AfterAll(p, o, ws).wire && |AfterAll(p, o, ws).wire| == |o.wire| + AllWrote(p, o, ws)
    decreases ws
  {
    if ws != [] {
      StepWrites(p, o, ws[0]);
      SocketGets(p, After(p, o, ws[0]), ws[1..]);
    }
  }

  /** So without a loss they are exactly the first bytes of what was submitted, and the rest is pending. */
  lemma SocketGetsFirst<M>(p: Pool<M>, o: Out, ws: seq<Work<M>>)
    requires o.Valid() && AllFit(p, o, ws) && !Loses(p, o, ws)
    ensures var all, n := o.Stream() + AllSubmitted(p, ws), |o.wire| + AllWrote(p, o, ws);
            n <= |all| && AfterAll(p, o, ws).wire == all[..n] && AfterAll(p, o, ws).buffer.contents == all[n..]
  {
    Conservation(p, o, ws);
    SocketGets(p, o, ws);
  }

  // ---- Write interest ----------------------------------------------------

  /** Write interest is on exactly when bytes are pending. */
  predicate Watched(o: Out) {
    o.writing <==> o.buffer.contents != []
  }

  /** The work that breaks this: a frame encoded into an idle connection, a close over pending bytes, a send of
      the pending bytes to themselves. */
  predicate Unwatches<M>(p: Pool<M>, o: Out, w: Work<M>) {
    || (w.Direct? && p.serialize(w.m).Some? && !o.writing)
    || (w.Close? && o.writing)
    || LosesNow(o, w)
  }

  lemma StepWatches<M>(p: Pool<M>, o: Out, w: Work<M>)
    requires o.Valid() && Fits(p, o, w) && Watched(o)
    ensures Watched(After(p, o, w)) <==> !Unwatches(p, o, w)
  {
  }

  predicate UnwatchedBy<M>(p: Pool<M>, o: Out, ws: seq<Work<M>>)
    requires o.Valid() && AllFit(p, o, ws)
    decreases ws
  {
    ws != [] && (Unwatches(p, o, ws[0]) || UnwatchedBy(p, After(p, o, ws[0]), ws[1..]))
  }

  /** Interest equals pending bytes in every state of the run. */
  predicate AlwaysWatched<M>(p: Pool<M>, o: Out, ws: seq<Work<M>>)
    requires o.Valid() && AllFit(p, o, ws)
    decreases ws
  {
    Watched(o) && (ws != [] ==> AlwaysWatched(p, After(p, o, ws[0]), ws[1..]))
  }

  /** From a state where it does, it does so all the way exactly when no such work is done. */
  lemma {:induction false} InterestKept<M>(p: Pool<M>, o: Out, ws: seq<Work<M>>)
    requires o.Valid() && AllFit(p, o, ws) && Watched(o)
    ensures AlwaysWatched(p, o, ws) <==> !UnwatchedBy(p, o, ws)
    ensures AlwaysWatched(p, o, ws) ==> Watched(AfterAll(p, o, ws))
    decreases ws
  {
    if ws != [] {
      StepWatches(p, o, ws[0]);
      if Watched(After(p, o, ws[0])) {
        InterestKept(p, After(p, o, ws[0]), ws[1..]);
      } else {
        StaysBroken(p, After(p, o, ws[0]), ws[1..]);
      }
    }
  }

  lemma StaysBroken<M>(p: Pool<M>, o: Out, ws: seq<Work<M>>)
    requires o.Valid() && AllFit(p, o, ws) && !Watched(o)
    ensures !AlwaysWatched(p, o, ws)
  {
  }

  // ---- Room --------------------------------------------------------------

  /** Sizes the encoder can represent, and callers' buffers with an intact reserve. */
  predicate WorkOk<M>(p: Pool<M>, w: Work<M>) {
    match w
    case Direct(m) => SizeOk(p, m)
    case SendBuffer(held, _) => held.Valid() && held.layout.read >= CHEAP_PREPEND
    case _ => true
  }

  /** How far a piece of work can push the write cursor. */
  function Size<M>(p: Pool<M>, w: Work<M>): nat {
    match w
    case SendBytes(msg, _) => |msg|
    case SendBuffer(held, _) => held.layout.write
    case Direct(m) => WORD + TotalLen(p, m)
    case _ => 0
  }

  function TotalSize<M>(p: Pool<M>, ws: seq<Work<M>>): nat {
    if ws == [] then 0 else Size(p, ws[0]) + TotalSize(p, ws[1..])
  }

  lemma RoomKept(l: Layout, n: nat, limit: nat)
    requires ReserveKept(l, limit) && limit + n <= MAX_SIZE
    ensures l.RoomFor(n) && ReserveKept(l.Append(n), limit + n)
    ensures ReserveKept(Move(l, EnsureWritable(n)), limit + n)
  {
  }

  lemma BytesKept(o: Out, msg: bytes, r: WriteResult, limit: nat)
    requires o.Valid() && ReserveKept(o.buffer.layout, limit) && limit + |msg| <= MAX_SIZE
    ensures BytesFit(o, msg, r) && ReserveKept(AfterBytes(o, msg, r).buffer.layout, limit + |msg|)
  {
    RoomKept(o.buffer.layout, |msg| - AtOnce(o, r, |msg|), limit);
  }

  lemma DirectKept<M>(p: Pool<M>, o: Out, m: M, limit: nat)
    requires o.Valid() && ReserveKept(o.buffer.layout, limit) && SizeOk(p, m)
    requires limit + WORD + TotalLen(p, m) <= MAX_SIZE
    ensures DirectFits(p, o, m)
    ensures ReserveKept(AfterDirect(p, o, m).buffer.layout, limit + WORD + TotalLen(p, m))
  {
    RoomKept(o.buffer.layout, WORD + TotalLen(p, m), limit);
  }

  lemma BufferKept(o: Out, held: Value, r: WriteResult, limit: nat)
    requires o.Valid() && ReserveKept(o.buffer.layout, limit)
    requires held.Valid() && held.layout.read >= CHEAP_PREPEND && limit + held.layout.write <= MAX_SIZE
    ensures BufferFits(o, held)
    ensures ReserveKept(AfterBuffer(o, held, r).buffer.layout, limit + held.layout.write)
  {
    RoomKept(o.buffer.layout, |held.contents|, limit);
  }

  lemma SelfKept(o: Out, r: WriteResult, limit: nat)
    requires o.Valid() && ReserveKept(o.buffer.layout, limit) && 2 * limit <= MAX_SIZE
    ensures SelfFits(o) && ReserveKept(AfterSelf(o, r).buffer.layout, limit)
  {
    RoomKept(o.buffer.layout, |o.buffer.contents|, limit);
  }

  lemma StepFits<M>(p: Pool<M>, o: Out, w: Work<M>, limit: nat)
    requires o.Valid() && ReserveKept(o.buffer.layout, limit) && WorkOk(p, w)
    requires 2 * (limit + Size(p, w)) <= MAX_SIZE
    ensures Fits(p, o, w) && ReserveKept(After(p, o, w).buffer.layout, limit + Size(p, w))
  {
    match w
    case SendBytes(msg, r) => BytesKept(o, msg, r, limit);
    case SendBuffer(held, r) => BufferKept(o, held, r, limit);
    case SendSelf(r) => SelfKept(o, r, limit);
    case Writable(_) =>
    case Direct(m) => DirectKept(p, o, m, limit);
    case Close =>
  }

  /** While callers leave the reserve of their buffers alone, every run fits. */
  lemma {:induction false} AlwaysFits<M>(p: Pool<M>, o: Out, ws: seq<Work<M>>, limit: nat)
    requires o.Valid() && ReserveKept(o.buffer.layout, limit)
    requires forall w :: w in ws ==> WorkOk(p, w)
    requires 2 * (limit + TotalSize(p, ws)) <= MAX_SIZE
    ensures AllFit(p, o, ws) && AfterAll(p, o, ws).buffer.layout.read >= CHEAP_PREPEND
    decreases ws
  {
    if ws != [] {
      assert ws[0] in ws;
      StepFits(p, o, ws[0], limit);
      AlwaysFits(p, After(p, o, ws[0]), ws[1..], limit + Size(p, ws[0]));
    }
  }

  /** When the socket takes nothing, an idle connection's send buffer is the caller's, cursors included; the next
      send then fits exactly when that buffer has the room behind its contents, or at least 8 bytes together
      with what is in front of them. */
  lemma TakenOver<M>(p: Pool<M>, o: Out, held: Value, msg: bytes, r: WriteResult)
    requires o.Valid() && o.Idle() && held.Valid() && held.contents != []
    requires held.layout.write + |msg| <= MAX_SIZE
    ensures var first: Work<M> := SendBuffer(held, None);
            && Fits(p, o, first)
            && After(p, o, first) == Out(held, true, o.wire)
            && (Fits(p, After(p, o, first), SendBytes(msg, r))
                <==> held.layout.Writable() >= |msg| || held.layout.Writable() + held.layout.read >= CHEAP_PREPEND)
  {
    assert held.contents[0..] == held.contents && o.wire + held.contents[..0] == o.wire;
  }

  const OPENED: Out := Out(DEFAULT, false, [])

  /** A caller that prepends a header to a full buffer breaks it: if the socket takes nothing, the send buffer is
      the caller's, and no further byte fits, whatever the kernel answers. */
  lemma HeaderBreaks<M>(p: Pool<M>, fill: bytes, header: bytes, msg: bytes, r: WriteResult)
    requires |fill| == INITIALIZE_SIZE && 1 <= |header| <= CHEAP_PREPEND && msg != []
    ensures var held := Value(Layout(1032, 8 - |header|, 1032), header + fill);
            var first: Work<M> := SendBuffer(held, None);
            && OPENED.Valid() && Fits(p, OPENED, first)
            && After(p, OPENED, first) == Out(held, true, [])
            && !Fits(p, After(p, OPENED, first), SendBytes(msg, r))
            && !held.layout.MakeSpace(|msg|).Valid()
  {
    var held := Value(Layout(1032, 8 - |header|, 1032), header + fill);
    assert held.contents[0..] == held.contents && held.contents[..0] == [];
    WrapsAround(held.layout, |msg|);
  }

  lemma WrapsAround(l: Layout, len: nat)
    requires l.Valid() && l.Writable() < len && l.Writable() + l.read < CHEAP_PREPEND
    ensures !l.RoomFor(len) && !l.MakeSpace(len).Valid()
  {
  }

  // ---- The class ---------------------------------------------------------

  /** Posts a callback to the loop under a condition. */
  function Post(posted: seq<Notice>, when: bool, notice: Notice): seq<Notice> {
    if when then posted + [notice] else posted
  }

  /** A caller's buffer in a given state. */
  method CallersBuffer(held: Value) returns (buffer: Buffer)
    requires held.Valid()
    ensures fresh(buffer) && buffer.Valid() && fresh(buffer.data) && buffer.AsValue() == held
  {
    var l := held.layout;
    buffer := new Buffer(l.size - CHEAP_PREPEND);
    buffer.Copy(held.contents, l.read);
    buffer.readIndex, buffer.writeIndex := l.read, l.write;
  }

  class TcpConnection {
    const sendBuffer: Buffer
    var writing: bool               // write interest of the channel
    var posted: seq<Notice>
    const completeCallback: bool    // a write-complete callback is set
    const highWaterMark: Option<nat>

    ghost var wire: bytes           // accepted by the socket so far

    ghost predicate Valid()
      reads this, sendBuffer
    {
      sendBuffer.Valid()
    }

    ghost function View(): Out
      requires Valid()
      reads this, sendBuffer, sendBuffer.data
    {
      Out(sendBuffer.AsValue(), writing, wire)
    }

    constructor (completeCallback: bool, highWaterMark: Option<nat>)
      ensures Valid() && fresh(sendBuffer) && fresh(sendBuffer.data)
      ensures View() == OPENED && posted == []
    {
      var b := new Buffer(INITIALIZE_SIZE);
      sendBuffer := b;
      writing, posted := false, [];
      this.completeCallback, this.highWaterMark := completeCallback, highWaterMark;
      wire := [];
    }

    predicate HighWaterReached()
      reads this, sendBuffer
    {
      highWaterMark.Some? && sendBuffer.writeIndex - sendBuffer.readIndex >= highWaterMark.value
    }

    method CheckHighWater()
      requires Valid()
      modifies this`posted
      ensures posted == if highWaterMark.Some? && |sendBuffer.Contents()| >= highWaterMark.value
                        then old(posted) + [HighWater] else old(posted)
    {
      if highWaterMark.Some? && sendBuffer.writeIndex - sendBuffer.readIndex >= highWaterMark.value {
        posted := posted + [HighWater];
      }
    }

    /** The second half of `sendInLoop(const char*, size_t)`: what was not written is kept. */
    method Keep(left: bytes)
      requires Valid() && sendBuffer.Shape().RoomFor(|left|)
      modifies this`writing, this`posted, sendBuffer, sendBuffer.data
      ensures Valid() && (sendBuffer.data == old(sendBuffer.data) || fresh(sendBuffer.data))
      ensures View() == old(View()).(buffer := Do(old(sendBuffer.AsValue()), Append(left)), writing := true)
      ensures posted == Post(old(posted), HighWaterReached(), HighWater)
    {
      sendBuffer.Append(left);
      if !writing {
        writing := true;
      }
      CheckHighWater();
    }

    /** `sendInLoop(const char*, size_t)`. */
    method SendInLoop(msg: bytes, result: WriteResult)
      requires Valid() && Answers(result, |msg|) && BytesFit(View(), msg, result)
      modifies this, sendBuffer, sendBuffer.data
      ensures Valid() && (sendBuffer.data == old(sendBuffer.data) || fresh(sendBuffer.data))
      ensures View() == AfterBytes(old(View()), msg, result)
      ensures posted == Post(Post(old(posted), old(View().Idle()) && result == Some(|msg|) && completeCallback,
                                  WriteComplete),
                             AtOnce(old(View()), result, |msg|) < |msg| && HighWaterReached(), HighWater)
    {
      var n := 0;
      if !writing && sendBuffer.writeIndex - sendBuffer.readIndex == 0 {
        if result.Some? {
          n := result.value;
          if n >= |msg| && completeCallback {
            posted := posted + [WriteComplete];
          }
        }
      }
      wire := wire + msg[..n];
      if n < |msg| {
        Keep(msg[n..]);
      }
    }

    /** The first half of `sendInLoop(Buffer&)`: what the socket takes at once leaves the buffer. */
    method WriteDirectly(buffer: Buffer, result: WriteResult)
      requires Valid() && buffer.Valid() && Answers(result, buffer.Shape().Readable())
      modifies this`wire, buffer`readIndex, buffer`writeIndex
      ensures Valid() && buffer.Valid()
      ensures var n := AtOnce(old(View()), result, |old(buffer.Contents())|);
              && wire == old(wire) + old(buffer.Contents())[..n]
              && buffer.AsValue() == if old(View().Idle()) && result.Some? then Do(old(buffer.AsValue()), Retrieve(n))
                                     else old(buffer.AsValue())
    {
      if !writing && sendBuffer.writeIndex - sendBuffer.readIndex == 0 {
        if result.Some? {
          wire := wire + buffer.Contents()[..result.value];
          buffer.Retrieve(result.value);
        }
      }
    }

    /** The second half of `sendInLoop(Buffer&)`: what was not written moves to the send buffer. */
    method MoveIn(buffer: Buffer)
      requires Valid() && buffer.Valid()
      requires buffer != sendBuffer ==> buffer.data != sendBuffer.data
      requires sendBuffer.Contents() != [] ==> sendBuffer.Shape().RoomFor(buffer.Shape().Readable())
      modifies sendBuffer, sendBuffer.data, buffer
      ensures Valid() && buffer.Valid() && buffer.Contents() == []
      ensures sendBuffer.data == old(sendBuffer.data) || sendBuffer.data == old(buffer.data) || fresh(sendBuffer.data)
      ensures sendBuffer.AsValue() == Kept(old(sendBuffer.AsValue()), old(buffer.AsValue()), buffer == sendBuffer)
    {
      if sendBuffer.writeIndex - sendBuffer.readIndex == 0 {
        sendBuffer.Swap(buffer);
      } else {
        sendBuffer.Append(buffer.data[buffer.readIndex..buffer.writeIndex]);
        buffer.RetrieveAll();
      }
    }

    /** Then the mark is checked and write interest comes on. */
    method KeepBuffer(buffer: Buffer)
      requires Valid() && buffer.Valid() && buffer.Contents() != []
      requires buffer != sendBuffer ==> buffer.data != sendBuffer.data
      requires sendBuffer.Contents() != [] ==> sendBuffer.Shape().RoomFor(buffer.Shape().Readable())
      modifies this`writing, this`posted, sendBuffer, sendBuffer.data, buffer
      ensures Valid() && buffer.Valid() && buffer.Contents() == []
      ensures sendBuffer.data == old(sendBuffer.data) || sendBuffer.data == old(buffer.data) || fresh(sendBuffer.data)
      ensures sendBuffer.AsValue() == Kept(old(sendBuffer.AsValue()), old(buffer.AsValue()), buffer == sendBuffer)
      ensures writing && posted == Post(old(posted), HighWaterReached(), HighWater)
    {
      MoveIn(buffer);
      CheckHighWater();
      if !writing {
        writing := true;
      }
    }

    /** `sendInLoop(Buffer&)`: the argument is drained, by swapping where possible; it may be the send buffer. */
    method SendBufferInLoop(buffer: Buffer, result: WriteResult)
      requires Valid() && buffer.Valid() && Answers(result, buffer.Shape().Readable())
      requires buffer != sendBuffer ==> buffer.data != sendBuffer.data
      requires if buffer == sendBuffer then SelfFits(View()) else BufferFits(View(), buffer.AsValue())
      modifies this, sendBuffer, sendBuffer.data, buffer
      ensures Valid() && buffer.Valid() && buffer.Contents() == []
      ensures sendBuffer.data == old(sendBuffer.data) || sendBuffer.data == old(buffer.data) || fresh(sendBuffer.data)
      ensures View() == if buffer == sendBuffer then AfterSelf(old(View()), result)
                        else AfterBuffer(old(View()), old(buffer.AsValue()), result)
      ensures posted == Post(old(posted),
                             AtOnce(old(View()), result, |old(buffer.Contents())|) < |old(buffer.Contents())|
                             && HighWaterReached(), HighWater)
    {
      ghost var held, o := buffer.AsValue(), View();
      WriteDirectly(buffer, result);
      LeftToKeep(o, held, result, buffer == sendBuffer);
      if buffer.writeIndex - buffer.readIndex > 0 {
        KeepBuffer(buffer);
      }
    }

    /** `handleWritable`. */
    method HandleWritable(result: WriteResult)
      requires Valid() && Answers(result, sendBuffer.Shape().Readable())
      modifies this, sendBuffer
      ensures Valid() && sendBuffer.data == old(sendBuffer.data)
      ensures View() == AfterWritable(old(View()), result)
      ensures posted == Post(old(posted), old(writing) && !writing && completeCallback, WriteComplete)
    {
      if writing {
        if result.Some? && result.value > 0 {
          wire := wire + sendBuffer.Contents()[..result.value];
          sendBuffer.Retrieve(result.value);
          if sendBuffer.writeIndex - sendBuffer.readIndex == 0 {
            writing := false;
            if completeCallback {
              posted := posted + [WriteComplete];
            }
          }
        }
      }
    }

    /** `ProtobufHandler::Send`. */
    method SendMessage<M>(p: Pool<M>, m: M)
      requires Valid() && DirectFits(p, View(), m)
      modifies sendBuffer, sendBuffer.data
      ensures Valid() && (sendBuffer.data == old(sendBuffer.data) || fresh(sendBuffer.data))
      ensures View() == AfterDirect(p, old(View()), m)
    {
      Encode(p, m, sendBuffer);
    }

    /** The channel part of `handleClose` and `connectionDestroyed`: `ignoreAll`. */
    method IgnoreAll()
      requires Valid()
      modifies this`writing
      ensures Valid() && View() == old(View()).(writing := false)
    {
      writing := false;
    }

    /** One piece of work; the kernel never takes more than it is offered. */
    method Perform<M>(p: Pool<M>, w: Work<M>)
      requires Valid() && Fits(p, View(), w)
      modifies this, sendBuffer, sendBuffer.data
      ensures Valid() && (sendBuffer.data == old(sendBuffer.data) || fresh(sendBuffer.data))
      ensures View() == After(p, old(View()), w)
    {
      match w
      case SendBytes(msg, r) => SendInLoop(msg, Limit(r, |msg|));
      case SendBuffer(held, r) =>
        var buffer := CallersBuffer(held);
        SendBufferInLoop(buffer, Limit(r, |held.contents|));
      case SendSelf(r) => SendBufferInLoop(sendBuffer, Limit(r, sendBuffer.writeIndex - sendBuffer.readIndex));
      case Writable(r) => HandleWritable(Limit(r, sendBuffer.writeIndex - sendBuffer.readIndex));
      case Direct(m) => SendMessage(p, m);
      case Close => IgnoreAll();
    }

    /** Every run: what the socket took, followed by the send buffer, is everything submitted, in order, exactly
        when the send buffer was never sent to itself with contents; and write interest is on exactly when
        bytes are pending, unless it was taken from them. */
    method PerformAll<M>(p: Pool<M>, ws: seq<Work<M>>)
      requires Valid() && AllFit(p, View(), ws)
      modifies this, sendBuffer, sendBuffer.data
      ensures Valid() && View() == AfterAll(p, old(View()), ws)
      ensures old(wire) <= wire && |wire| == |old(wire)| + AllWrote(p, old(View()), ws)
      ensures wire + sendBuffer.Contents() == old(wire + sendBuffer.Contents()) + AllSubmitted(p, ws)
         <==> !Loses(p, old(View()), ws)
      ensures old(Watched(View())) ==>
                && (AlwaysWatched(p, old(View()), ws) <==> !UnwatchedBy(p, old(View()), ws))
                && (!UnwatchedBy(p, old(View()), ws) ==> (writing <==> sendBuffer.Contents() != []))
    {
      ghost var o := View();
      Conservation(p, o, ws);
      SocketGets(p, o, ws);
      if Watched(o) {
        InterestKept(p, o, ws);
      }
      Execute(p, ws);
    }

    method Execute<M>(p: Pool<M>, ws: seq<Work<M>>)
      requires Valid() && AllFit(p, View(), ws)
      modifies this, sendBuffer, sendBuffer.data
      ensures Valid() && View() == AfterAll(p, old(View()), ws)
    {
      var k := 0;
      ghost var o := View();
      assert ws[0..] == ws;
      while k < |ws|
        invariant k <= |ws| && Valid() && (sendBuffer.data == old(sendBuffer.data) || fresh(sendBuffer.data))
        invariant AllFit(p, View(), ws[k..])
        invariant AfterAll(p, o, ws) == AfterAll(p, View(), ws[k..])
      {
        assert ws[k..][0] == ws[k] && ws[k..][1..] == ws[k + 1..];
        Perform(p, ws[k]);
        k := k + 1;
      }
    }
  }

  /** The send buffer after the second half of `sendInLoop(Buffer&)`; what the copy reads when the two are the
      same does not matter, since all of it is dropped. */
  function Kept(own: Value, rest: Value, same: bool): Value
    requires own.Valid() && rest.Valid() && (own.contents != [] ==> own.layout.RoomFor(|rest.contents|))
  {
    if own.contents == [] then rest
    else
      var longer := Do(own, Append(rest.contents));
      if same then Do(longer, RetrieveAll) else longer
  }

  /** The two halves of `sendInLoop(Buffer&)` together. */
  lemma LeftToKeep(o: Out, held: Value, r: WriteResult, same: bool)
    requires o.Valid() && held.Valid() && Answers(r, |held.contents|)
    requires if same then held == o.buffer && SelfFits(o) else BufferFits(o, held)
    ensures var n := AtOnce(o, r, |held.contents|);
            var rest := if o.Idle() && r.Some? then Do(held, Retrieve(n)) else held;
            && |rest.contents| == |held.contents| - n
            && (rest.contents != [] ==>
                  && (same ==> rest == held && n == 0 && o.buffer.contents != [])
                  && (o.buffer.contents != [] ==> o.buffer.layout.RoomFor(|rest.contents|))
                  && Out(Kept(o.buffer, rest, same), true, o.wire + held.contents[..n])
                     == if same then AfterSelf(o, r) else AfterBuffer(o, held, r))
            && (rest.contents == [] ==>
                  Out(if same then rest else o.buffer, o.writing, o.wire + held.contents[..n])
                  == if same then AfterSelf(o, r) else AfterBuffer(o, held, r))
  {
    var n := AtOnce(o, r, |held.contents|);
    assert held.contents[..0] == [] && o.wire + [] == o.wire;
    if n == |held.contents| {
      assert held.contents[..n] == held.contents;
    }
  }
}
