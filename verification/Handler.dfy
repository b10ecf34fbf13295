/** `net/protobuf/ProtobufHandler.cpp`: the decode and dispatch loop over encoded messages. */
module Handler {
  import opened Bytes
  import opened Buffers
  import opened Streams
  import opened Codec

  /** `Codec::Decode` as a decoder of byte strings. */
  function Decoder<M>(p: Pool<M>): bytes -> Decoded<M> {
    (s: bytes) => DecodeBytes(p, s)
  }

  /** The codec respects the boundaries of all byte strings with a consistent length header. */
  lemma CodecFrames<M>(p: Pool<M>)
    ensures Framing(Decoder(p), WellFramed)
  {
    var dec := Decoder(p);
    forall s
      ensures Progresses(dec, s)
    {
      DecodeConsumes(p, s);
    }
    forall f, rest | WellFramed(f)
      ensures Judges(dec, f, rest)
    {
      DecodeFrame(p, f, rest);
    }
    forall f, k | 0 <= k < |f| && WellFramed(f)
      ensures Waits(dec, f, k)
    {
      DecodePrefix(p, f, k);
    }
  }

  // ---- Streams of messages -----------------------------------------------

  predicate AllEncodable<M>(p: Pool<M>, ms: seq<M>) {
    forall i :: 0 <= i < |ms| ==> Encodable(p, ms[i])
  }

  /** The frames `Encode` writes for the messages. */
  function Frames<M>(p: Pool<M>, ms: seq<M>): (fs: seq<bytes>)
    requires AllEncodable(p, ms)
    ensures |fs| == |ms| && forall i :: 0 <= i < |ms| ==> fs[i] == Frame(p, ms[i])
  {
    seq(|ms|, i requires 0 <= i < |ms| => Frame(p, ms[i]))
  }

  lemma FrameDecodes<M(!new)>(p: Pool<M>, m: M)
    requires Lawful(p) && Encodable(p, m)
    ensures WellFramed(Frame(p, m)) && Decoder(p)(Frame(p, m)).state == Success
    ensures MessageOf(Decoder(p), Frame(p, m)) == [m]
  {
    RoundTrip(p, m, []);
    assert Frame(p, m) + [] == Frame(p, m);
  }

  lemma {:induction false} FramesDecode<M(!new)>(p: Pool<M>, ms: seq<M>)
    requires Lawful(p) && AllEncodable(p, ms)
    ensures AllFrames(WellFramed, Frames(p, ms)) && AllDecode(Decoder(p), Frames(p, ms))
    ensures Messages(Decoder(p), Frames(p, ms)) == ms
  {
    forall i | 0 <= i < |ms|
      ensures WellFramed(Frame(p, ms[i])) && Decoder(p)(Frame(p, ms[i])).state == Success
    {
      FrameDecodes(p, ms[i]);
    }
    if ms != [] {
      FrameDecodes(p, ms[0]);
      FramesDecode(p, ms[1..]);
      assert Frames(p, ms)[1..] == Frames(p, ms[1..]);
      assert ms == [ms[0]] + ms[1..];
    }
  }

  /** The first `cut` bytes of an encoded stream, delivered in any chunks: exactly the messages of the
      complete frames are dispatched, and the buffer holds exactly the bytes of the unfinished one. */
  lemma ChunkedDelivery<M(!new)>(p: Pool<M>, ms: seq<M>, cut: nat, chunks: seq<bytes>) returns (j: nat)
    requires Lawful(p) && AllEncodable(p, ms)
    requires cut <= |Flatten(Frames(p, ms))| && Flatten(chunks) == Flatten(Frames(p, ms))[..cut]
    ensures Lively(Decoder(p))
    ensures j <= |ms|
    ensures |Flatten(Frames(p, ms[..j]))| <= cut
    ensures j < |ms| ==> cut < |Flatten(Frames(p, ms[..j + 1]))|
    ensures Feed(Decoder(p), [], chunks).0 == ms[..j]
    ensures Feed(Decoder(p), [], chunks).1 == Flatten(Frames(p, ms))[|Flatten(Frames(p, ms[..j]))|..cut]
  {
    FramesDecode(p, ms);
    var done, todo := CodecDelivers(p, Frames(p, ms), cut, chunks);
    j := |done|;
    DoneFrames(p, ms, done, todo);
  }

  lemma CodecDelivers<M>(p: Pool<M>, frames: seq<bytes>, cut: nat, chunks: seq<bytes>)
      returns (done: seq<bytes>, todo: seq<bytes>)
    requires AllFrames(WellFramed, frames) && AllDecode(Decoder(p), frames)
    requires cut <= |Flatten(frames)| && Flatten(chunks) == Flatten(frames)[..cut]
    ensures Lively(Decoder(p)) && frames == done + todo
    ensures |Flatten(done)| <= cut && (todo != [] ==> cut < |Flatten(done)| + |todo[0]|)
    ensures Feed(Decoder(p), [], chunks).0 == Messages(Decoder(p), done)
    ensures Feed(Decoder(p), [], chunks).1 == Flatten(frames)[|Flatten(done)|..cut]
  {
    CodecFrames(p);
    done, todo := Deliver(Decoder(p), WellFramed, frames, cut, chunks);
  }

  /** The frames done are those of the first messages; the next message's frame comes after them. */
  lemma DoneFrames<M(!new)>(p: Pool<M>, ms: seq<M>, done: seq<bytes>, todo: seq<bytes>)
    requires Lawful(p) && AllEncodable(p, ms) && Frames(p, ms) == done + todo
    ensures done == Frames(p, ms[..|done|]) && Messages(Decoder(p), done) == ms[..|done|]
    ensures todo != [] ==> |Flatten(Frames(p, ms[..|done| + 1]))| == |Flatten(done)| + |todo[0]|
  {
    var j := |done|;
    FramesTake(p, ms, done, todo);
    FramesDecode(p, ms[..j]);
    if todo != [] {
      NextFrame(done, todo);
      FramesTake(p, ms, done + [todo[0]], todo[1..]);
    }
  }

  lemma NextFrame(done: seq<bytes>, todo: seq<bytes>)
    requires todo != []
    ensures done + todo == (done + [todo[0]]) + todo[1..]
    ensures |Flatten(done + [todo[0]])| == |Flatten(done)| + |todo[0]|
  {
    FlattenAppend(done, [todo[0]]);
    FlattenOne(todo[0]);
  }

  lemma FramesTake<M>(p: Pool<M>, ms: seq<M>, done: seq<bytes>, todo: seq<bytes>)
    requires AllEncodable(p, ms) && Frames(p, ms) == done + todo
    ensures |done| <= |ms| && Frames(p, ms[..|done|]) == done
  {
  }

  /** The whole stream, in any chunks: every message once, in order, and an empty buffer. */
  lemma WholeStream<M(!new)>(p: Pool<M>, ms: seq<M>, chunks: seq<bytes>)
    requires Lawful(p) && AllEncodable(p, ms) && Flatten(chunks) == Flatten(Frames(p, ms))
    ensures Lively(Decoder(p))
    ensures Feed(Decoder(p), [], chunks).0 == ms && Feed(Decoder(p), [], chunks).1 == []
  {
    var n := |Flatten(Frames(p, ms))|;
    TakeAll(Flatten(Frames(p, ms)));
    var j := ChunkedDelivery(p, ms, n, chunks);
    AllDelivered(p, ms, j);
  }

  lemma AllDelivered<M>(p: Pool<M>, ms: seq<M>, j: nat)
    requires AllEncodable(p, ms) && j <= |ms|
    requires j < |ms| ==> |Flatten(Frames(p, ms))| < |Flatten(Frames(p, ms[..j + 1]))|
    ensures ms[..j] == ms
  {
    if j < |ms| {
      FramesUpTo(p, ms, j + 1);
      assert false;
    }
  }

  lemma TakeAll<T>(s: seq<T>)
    ensures s[..|s|] == s
  {
  }

  lemma FramesUpTo<M>(p: Pool<M>, ms: seq<M>, j: nat)
    requires AllEncodable(p, ms) && j <= |ms|
    ensures |Flatten(Frames(p, ms[..j]))| <= |Flatten(Frames(p, ms))|
  {
    assert Frames(p, ms) == Frames(p, ms[..j]) + Frames(p, ms)[j..];
    FlattenAppend(Frames(p, ms[..j]), Frames(p, ms)[j..]);
  }

  // ---- Streams with faults -----------------------------------------------

  /** Frames with a consistent length header, corrupt behind it or not, in any chunks: those handled are judged
      once and in order, and exactly the bytes behind them stay. */
  lemma AnyFrames<M>(p: Pool<M>, frames: seq<bytes>, chunks: seq<bytes>)
    requires AllFrames(WellFramed, frames) && Flatten(chunks) <= Flatten(frames)
    ensures Lively(Decoder(p))
    ensures var h := Handled(Decoder(p), frames, 0, chunks);
            && h <= |frames|
            && Feed(Decoder(p), [], chunks).0 == Messages(Decoder(p), frames[..h])
            && Flatten(chunks) == Flatten(frames[..h]) + Feed(Decoder(p), [], chunks).1
  {
    CodecFrames(p);
    assert [] + Flatten(chunks) == Flatten(chunks);
    EveryFrameOnce(Decoder(p), WellFramed, frames, [], chunks);
  }

  lemma FrameIntact<M>(p: Pool<M>, m: M)
    requires Encodable(p, m)
    ensures Intact(Frame(p, m))
  {
    SealFields(Body(p.nameOf(m), p.serialize(m).value));
  }

  /** The frames of the messages, with byte j of frame i changed to v. */
  function Corrupted<M>(p: Pool<M>, ms: seq<M>, i: nat, j: nat, v: byte): (fs: seq<bytes>)
    requires AllEncodable(p, ms) && i < |ms| && j < |Frame(p, ms[i])|
    ensures |fs| == |ms|
  {
    Frames(p, ms)[i := Frame(p, ms[i])[j := v]]
  }

  lemma CorruptedFrames<M(!new)>(p: Pool<M>, ms: seq<M>, i: nat, j: nat, v: byte)
    requires Lawful(p) && AllEncodable(p, ms) && i < |ms|
    requires WORD <= j < |Frame(p, ms[i])| && v != Frame(p, ms[i])[j]
    ensures var fs := Corrupted(p, ms, i, j, v);
            && AllFrames(WellFramed, fs) && Decoder(p)(fs[i]).msg.None?
            && forall q :: 0 <= q < |fs| ==> (Decoder(p)(fs[q]).state == Success <==> q != i)
  {
    var fs := Corrupted(p, ms, i, j, v);
    ChangedFrame(p, ms[i], j, v);
    forall q | 0 <= q < |fs| && q != i
      ensures WellFramed(fs[q]) && Decoder(p)(fs[q]).state == Success
    {
      FrameDecodes(p, ms[q]);
    }
  }

  lemma ChangedFrame<M>(p: Pool<M>, m: M, j: nat, v: byte)
    requires Encodable(p, m) && WORD <= j < |Frame(p, m)| && v != Frame(p, m)[j]
    ensures var g := Frame(p, m)[j := v];
            WellFramed(g) && Decoder(p)(g).state == ChecksumError && Decoder(p)(g).msg.None?
  {
    var f := Frame(p, m);
    FrameIntact(p, m);
    HeaderUntouched(f, f[j := v]);
    OneByteCorrupted(p, f, j, v, []);
    assert f[j := v] + [] == f[j := v];
    DecodeConsumes(p, f[j := v]);
  }

  lemma CorruptedMessages<M(!new)>(p: Pool<M>, ms: seq<M>, i: nat, g: bytes, h: nat)
    requires Lawful(p) && AllEncodable(p, ms) && i < h <= |ms| && Decoder(p)(g).msg.None?
    ensures Messages(Decoder(p), Frames(p, ms)[i := g][..h]) == ms[..i] + ms[i + 1..h]
  {
    var before, behind := Frames(p, ms[..i]), Frames(p, ms[i + 1..h]);
    FramesDecode(p, ms[..i]);
    FramesDecode(p, ms[i + 1..h]);
    CorruptedSplit(p, ms, i, g, h);
    MessagesAround(Decoder(p), before, g, behind);
  }

  lemma CorruptedSplit<M>(p: Pool<M>, ms: seq<M>, i: nat, g: bytes, h: nat)
    requires AllEncodable(p, ms) && i < h <= |ms|
    ensures Frames(p, ms)[i := g][..h] == Frames(p, ms[..i]) + ([g] + Frames(p, ms[i + 1..h]))
  {
    FramesSlice(p, ms, 0, i);
    FramesSlice(p, ms, i + 1, h);
    ReplacedPrefix(Frames(p, ms), i, g, h);
    assert ms[0..i] == ms[..i] && Frames(p, ms)[0..i] == Frames(p, ms)[..i];
  }

  lemma FramesSlice<M>(p: Pool<M>, ms: seq<M>, from: nat, to: nat)
    requires AllEncodable(p, ms) && from <= to <= |ms|
    ensures Frames(p, ms)[from..to] == Frames(p, ms[from..to])
  {
  }

  lemma ReplacedPrefix(fs: seq<bytes>, i: nat, g: bytes, h: nat)
    requires i < h <= |fs|
    ensures fs[i := g][..h] == fs[..i] + ([g] + fs[i + 1..h])
  {
  }

  lemma MessagesAround<M>(dec: bytes -> Decoded<M>, before: seq<bytes>, g: bytes, behind: seq<bytes>)
    requires dec(g).msg.None?
    ensures Messages(dec, before + ([g] + behind)) == Messages(dec, before) + Messages(dec, behind)
  {
    MessagesAppend(dec, before, [g] + behind);
    MessagesAppend(dec, [g], behind);
    MessagesOne(dec, g);
  }

  /** A stream of messages of which one frame has a byte changed, in any chunks: every other message is dispatched
      exactly when the changed frame is the last, or was complete before the last read; otherwise the messages
      behind it wait in the buffer. In no case is another message lost. */
  lemma OneFrameCorrupted<M(!new)>(p: Pool<M>, ms: seq<M>, i: nat, j: nat, v: byte, chunks: seq<bytes>) returns (h: nat)
    requires Lawful(p) && AllEncodable(p, ms) && i < |ms|
    requires WORD <= j < |Frame(p, ms[i])| && v != Frame(p, ms[i])[j]
    requires Flatten(chunks) == Flatten(Corrupted(p, ms, i, j, v))
    ensures Lively(Decoder(p)) && chunks != [] && i < h <= |ms|
    ensures Feed(Decoder(p), [], chunks).0 == ms[..i] + ms[i + 1..h]
    ensures Feed(Decoder(p), [], chunks).1 == Flatten(Frames(p, ms[h..]))
    ensures h == |ms| <==>
              Complete(Corrupted(p, ms, i, j, v), |Flatten(chunks[..|chunks| - 1])|) > i || i == |ms| - 1
  {
    var fs := Corrupted(p, ms, i, j, v);
    CorruptedFrames(p, ms, i, j, v);
    h := SingleFaultHandled(p, fs, i, chunks);
    CorruptedMessages(p, ms, i, fs[i], h);
    BehindCorrupted(p, ms, i, fs[i], h);
  }

  lemma BehindCorrupted<M>(p: Pool<M>, ms: seq<M>, i: nat, g: bytes, h: nat)
    requires AllEncodable(p, ms) && i < h <= |ms|
    ensures Frames(p, ms)[i := g][h..] == Frames(p, ms[h..])
  {
    FramesSlice(p, ms, h, |ms|);
    assert ms[h..|ms|] == ms[h..] && Frames(p, ms)[i := g][h..] == Frames(p, ms)[h..|ms|];
  }

  /** The same for frames of which just one does not decode. */
  lemma SingleFaultHandled<M>(p: Pool<M>, fs: seq<bytes>, i: nat, chunks: seq<bytes>) returns (h: nat)
    requires AllFrames(WellFramed, fs) && i < |fs| && Flatten(chunks) == Flatten(fs)
    requires forall q :: 0 <= q < |fs| ==> (Decoder(p)(fs[q]).state == Success <==> q != i)
    ensures Lively(Decoder(p)) && chunks != [] && i < h <= |fs|
    ensures Feed(Decoder(p), [], chunks) == (Messages(Decoder(p), fs[..h]), Flatten(fs[h..]))
    ensures h == |fs| <==> Complete(fs, |Flatten(chunks[..|chunks| - 1])|) > i || i == |fs| - 1
  {
    CodecFrames(p);
    NothingYet(Decoder(p), WellFramed, fs);
    SingleFaultInAll(Decoder(p), fs, chunks, i);
    h := Handled(Decoder(p), fs, 0, chunks);
    AnyFrames(p, fs, chunks);
    SplitAt(fs, h, Feed(Decoder(p), [], chunks).1);
  }

  lemma SplitAt(fs: seq<bytes>, h: nat, rest: bytes)
    requires h <= |fs| && Flatten(fs) == Flatten(fs[..h]) + rest
    ensures rest == Flatten(fs[h..])
  {
    assert fs == fs[..h] + fs[h..];
    FlattenAppend(fs[..h], fs[h..]);
    assert rest == Flatten(fs)[|Flatten(fs[..h])|..];
  }

  // ---- Lengths out of range ----------------------------------------------

  /** A length header the decoder refuses. */
  predicate OutOfRange(s: bytes) {
    |s| >= WORD && !(MIN_LEN <= LengthField(s) <= MAX_LEN)
  }

  /** A refused length throws away all bytes that are there, and the next read starts afresh. */
  lemma OutOfRangeDiscards<M>(p: Pool<M>, s: bytes, chunks: seq<bytes>)
    requires OutOfRange(s)
    ensures Lively(Decoder(p))
    ensures Handle(Decoder(p), s) == ([], []) && Feed(Decoder(p), [], [s] + chunks) == Feed(Decoder(p), [], chunks)
  {
    CodecFrames(p);
    var dec := Decoder(p);
    assert s[|s|..] == [] && [] + s == s && ([s] + chunks)[1..] == chunks;
    var (ms, rest) := Feed(dec, [], chunks);
    assert [] + ms == ms;
  }

  /** A frame that decodes begins at position k. */
  predicate FrameAt<M>(p: Pool<M>, s: bytes, k: nat)
    requires k <= |s|
  {
    DecodeBytes(p, s[k..]).state == Success
  }

  lemma MoreFollows<M>(p: Pool<M>, s: bytes, more: bytes)
    requires DecodeBytes(p, s).state == Success
    ensures DecodeBytes(p, s + more).state == Success
  {
    var f, rest := FrameInFront(p, s);
    SameVerdict(p, f, rest, rest + more);
    assert f + (rest + more) == s + more;
  }

  lemma SameVerdict<M>(p: Pool<M>, f: bytes, a: bytes, b: bytes)
    requires WellFramed(f)
    ensures DecodeBytes(p, f + a) == DecodeBytes(p, f + b)
  {
    DecodeFrame(p, f, a);
    DecodeFrame(p, f, b);
  }

  lemma FrameInFront<M>(p: Pool<M>, s: bytes) returns (f: bytes, rest: bytes)
    requires DecodeBytes(p, s).state == Success
    ensures WellFramed(f) && f + rest == s
  {
    var n := WORD + LengthField(s);
    f, rest := s[..n], s[n..];
    assert f[..WORD] == s[..WORD];
  }

  /** A call on bytes at whose start no frame will decode dispatches nothing, and drops `gone` bytes. */
  lemma HandleNothing<M>(p: Pool<M>, s: bytes, later: bytes) returns (gone: nat)
    requires !FrameAt(p, s + later, 0)
    ensures Lively(Decoder(p)) && gone <= |s| && Handle(Decoder(p), s) == ([], s[gone..])
  {
    CodecFrames(p);
    assert (s + later)[0..] == s + later;
    if DecodeBytes(p, s).state == Success {
      MoreFollows(p, s, later);
      assert false;
    }
    gone := if |s| < WORD then 0 else DecodeBytes(p, s).consumed;
    DecodeConsumes(p, s);
    assert s[0..] == s;
  }

  /** Where no frame that decodes begins anywhere, no cutting dispatches anything. */
  lemma {:induction false} NoFrameNoMessage<M>(p: Pool<M>, buf: bytes, chunks: seq<bytes>, s: bytes)
    requires s == buf + Flatten(chunks) && forall k :: 0 <= k <= |s| ==> !FrameAt(p, s, k)
    ensures Lively(Decoder(p)) && Feed(Decoder(p), buf, chunks).0 == []
    decreases chunks
  {
    CodecFrames(p);
    if chunks != [] {
      var first, later := buf + chunks[0], Flatten(chunks[1..]);
      assert s == first + later;
      var gone := HandleNothing(p, first, later);
      assert first[gone..] + later == s[gone..];
      NoFrameBehind(p, s, gone, first[gone..] + later);
      NoFrameNoMessage(p, first[gone..], chunks[1..], first[gone..] + later);
    }
  }

  lemma NoFrameBehind<M>(p: Pool<M>, s: bytes, gone: nat, rest: bytes)
    requires gone <= |s| && rest == s[gone..] && forall k :: gone <= k <= |s| ==> !FrameAt(p, s, k)
    ensures forall k :: 0 <= k <= |rest| ==> !FrameAt(p, rest, k)
  {
    forall k | 0 <= k <= |rest|
      ensures !FrameAt(p, rest, k)
    {
      assert rest[k..] == s[gone + k..];
      assert !FrameAt(p, s, gone + k);
    }
  }

  lemma {:induction false} OutOfRangeSilent<M>(p: Pool<M>, buf: bytes, chunks: seq<bytes>, s: bytes)
    requires |buf| < WORD && s == buf + Flatten(chunks) && OutOfRange(s)
    requires forall k :: WORD <= k <= |s| ==> !FrameAt(p, s, k)
    ensures Lively(Decoder(p)) && Feed(Decoder(p), buf, chunks).0 == []
    decreases chunks
  {
    CodecFrames(p);
    if chunks != [] {
      var first, later := buf + chunks[0], Flatten(chunks[1..]);
      assert s == first + later;
      if |first| < WORD {
        OutOfRangeSilent(p, first, chunks[1..], s);
      } else {
        assert first[..WORD] == s[..WORD];
        OutOfRangeDiscards(p, first, []);
        assert later == s[|first|..] == [] + later;
        NoFrameBehind(p, s, |first|, later);
        NoFrameNoMessage(p, [], chunks[1..], later);
      }
    }
  }

  /** So what is dispatched depends on the cutting: cut at k behind the header, the bytes from k on are read as if a
      frame began there. Some cutting dispatches something, where the single read dispatches nothing, exactly
      when a frame that decodes begins anywhere behind the header. */
  lemma CuttingMatters<M>(p: Pool<M>, s: bytes)
    requires OutOfRange(s)
    ensures Lively(Decoder(p)) && Feed(Decoder(p), [], [s]) == ([], [])
    ensures forall k :: WORD <= k <= |s| ==> Feed(Decoder(p), [], [s[..k], s[k..]]) == Handle(Decoder(p), s[k..])
    ensures (exists chunks :: Flatten(chunks) == s && Feed(Decoder(p), [], chunks).0 != [])
       <==> (exists k :: WORD <= k <= |s| && FrameAt(p, s, k))
  {
    CodecFrames(p);
    OutOfRangeDiscards(p, s, []);
    assert [s] + [] == [s];
    forall k | WORD <= k <= |s|
      ensures Feed(Decoder(p), [], [s[..k], s[k..]]) == Handle(Decoder(p), s[k..])
    {
      CutBehindHeader(p, s, k);
    }
    if k :| WORD <= k <= |s| && FrameAt(p, s, k) {
      SplitInTwo(s, k);
      DispatchedAt(p, s[k..]);
      var chunks := [s[..k], s[k..]];
      assert Flatten(chunks) == s && Feed(Decoder(p), [], chunks).0 != [];
    } else {
      forall chunks | Flatten(chunks) == s
        ensures Feed(Decoder(p), [], chunks).0 == []
      {
        assert [] + Flatten(chunks) == s;
        OutOfRangeSilent(p, [], chunks, s);
      }
    }
  }

  lemma SplitInTwo(s: bytes, k: nat)
    requires k <= |s|
    ensures Flatten([s[..k], s[k..]]) == s
  {
    FlattenAppend([s[..k]], [s[k..]]);
    FlattenOne(s[..k]);
    FlattenOne(s[k..]);
    assert [s[..k]] + [s[k..]] == [s[..k], s[k..]];
  }

  lemma DispatchedAt<M>(p: Pool<M>, s: bytes)
    requires DecodeBytes(p, s).state == Success
    ensures Lively(Decoder(p)) && Handle(Decoder(p), s).0 != []
  {
    CodecFrames(p);
    HandleTurn(Decoder(p), [], s);
  }

  lemma CutBehindHeader<M>(p: Pool<M>, s: bytes, k: nat)
    requires OutOfRange(s) && WORD <= k <= |s|
    ensures Lively(Decoder(p)) && Feed(Decoder(p), [], [s[..k], s[k..]]) == Handle(Decoder(p), s[k..])
  {
    CodecFrames(p);
    assert s[..k][..WORD] == s[..WORD];
    OutOfRangeDiscards(p, s[..k], [s[k..]]);
    assert [s[..k]] + [s[k..]] == [s[..k], s[k..]];
    OneChunk(Decoder(p), s[k..]);
  }

  /** A message too long for the decoder takes the next one with it, unless a read ends between the two. */
  lemma OversizedMessage<M(!new)>(p: Pool<M>, big: M, m: M)
    requires Lawful(p) && Representable(p, big) && TotalLen(p, big) > MAX_LEN && Encodable(p, m)
    ensures Lively(Decoder(p))
    ensures Feed(Decoder(p), [], [Frame(p, big) + Frame(p, m)]) == ([], [])
    ensures Feed(Decoder(p), [], [Frame(p, big), Frame(p, m)]) == ([m], [])
  {
    var f, g := Frame(p, big), Frame(p, m);
    SealFields(Body(p.nameOf(big), p.serialize(big).value));
    assert (f + g)[..WORD] == f[..WORD];
    OutOfRangeDiscards(p, f + g, []);
    OutOfRangeDiscards(p, f, [g]);
    assert [f + g] + [] == [f + g] && [f] + [g] == [f, g];
    FlattenOne(g);
    assert Frames(p, [m]) == [g];
    WholeStream(p, [m], [g]);
  }

  /** A call of `OnMessage` loses at least 13 bytes per message it dispatches. */
  lemma {:induction false} HandleShrinks<M>(p: Pool<M>, s: bytes)
    requires Lively(Decoder(p))
    ensures |Handle(Decoder(p), s).1| + (WORD + MIN_LEN) * |Handle(Decoder(p), s).0| <= |s|
    decreases |s|
  {
    DecodeConsumes(p, s);
    var d := Decoder(p)(s);
    assert Progresses(Decoder(p), s);
    if |s| >= WORD && d.state == Success {
      HandleShrinks(p, s[d.consumed..]);
    }
  }

  // ---- The methods -------------------------------------------------------

  method OnMessage<M>(p: Pool<M>, buffer: Buffer) returns (dispatched: seq<M>)
    requires buffer.Valid()
    modifies buffer`readIndex, buffer`writeIndex
    ensures buffer.Valid() && Lively(Decoder(p))
    ensures dispatched == Handle(Decoder(p), old(buffer.Contents())).0
    ensures buffer.Contents() == Handle(Decoder(p), old(buffer.Contents())).1
    ensures old(buffer.readIndex) >= CHEAP_PREPEND ==>
              CHEAP_PREPEND <= buffer.readIndex && buffer.writeIndex <= old(buffer.writeIndex)
  {
    CodecFrames(p);
    dispatched := [];
    ghost var all := Handle(Decoder(p), buffer.Contents());
    while buffer.writeIndex - buffer.readIndex >= WORD
      invariant buffer.Valid()
      invariant old(buffer.readIndex) >= CHEAP_PREPEND ==>
                  CHEAP_PREPEND <= buffer.readIndex && buffer.writeIndex <= old(buffer.writeIndex)
      invariant all.0 == dispatched + Handle(Decoder(p), buffer.Contents()).0
      invariant all.1 == Handle(Decoder(p), buffer.Contents()).1
      decreases |buffer.Contents()|
    {
      HandleTurn(Decoder(p), dispatched, buffer.Contents());
      var state, msg := Decode(p, buffer);
      if state == Incomplete {
        return;
      }
      if state == Success {
        dispatched := dispatched + [msg.value];
      } else {
        return;
      }
    }
  }

  /** One read event: a chunk is appended to the receive buffer and handled. */
  method OnChunk<M>(p: Pool<M>, buffer: Buffer, chunk: bytes) returns (dispatched: seq<M>)
    requires buffer.Valid() && buffer.readIndex >= CHEAP_PREPEND && buffer.writeIndex + |chunk| <= MAX_SIZE
    modifies buffer, buffer.data
    ensures buffer.Valid() && (buffer.data == old(buffer.data) || fresh(buffer.data)) && Lively(Decoder(p))
    ensures dispatched == Handle(Decoder(p), old(buffer.Contents()) + chunk).0
    ensures buffer.Contents() == Handle(Decoder(p), old(buffer.Contents()) + chunk).1
    ensures buffer.readIndex >= CHEAP_PREPEND && buffer.writeIndex <= old(buffer.writeIndex) + |chunk|
  {
    buffer.Append(chunk);
    dispatched := OnMessage(p, buffer);
  }

  /** The connection's read path: chunk after chunk. */
  method Receive<M>(p: Pool<M>, buffer: Buffer, chunks: seq<bytes>) returns (dispatched: seq<M>)
    requires buffer.Valid() && buffer.readIndex >= CHEAP_PREPEND
    requires buffer.writeIndex + |Flatten(chunks)| <= MAX_SIZE
    modifies buffer, buffer.data
    ensures buffer.Valid() && Lively(Decoder(p))
    ensures dispatched == Feed(Decoder(p), old(buffer.Contents()), chunks).0
    ensures buffer.Contents() == Feed(Decoder(p), old(buffer.Contents()), chunks).1
  {
    CodecFrames(p);
    dispatched := [];
    ghost var c := buffer.Contents();
    var k := 0;
    while k < |chunks|
      invariant k <= |chunks|
      invariant buffer.Valid() && buffer.readIndex >= CHEAP_PREPEND
      invariant buffer.data == old(buffer.data) || fresh(buffer.data)
      invariant buffer.writeIndex + |Flatten(chunks[k..])| <= MAX_SIZE
      invariant dispatched == Feed(Decoder(p), c, chunks[..k]).0
      invariant buffer.Contents() == Feed(Decoder(p), c, chunks[..k]).1
    {
      NextChunk(chunks, k);
      FeedMore(Decoder(p), c, chunks[..k], chunks[k]);
      var ms := OnChunk(p, buffer, chunks[k]);
      dispatched := dispatched + ms;
      k := k + 1;
    }
    assert chunks[..k] == chunks;
  }

  lemma NextChunk(chunks: seq<bytes>, k: nat)
    requires k < |chunks|
    ensures chunks[..k + 1] == chunks[..k] + [chunks[k]]
    ensures |Flatten(chunks[k..])| == |chunks[k]| + |Flatten(chunks[k + 1..])|
  {
    assert chunks[k..][1..] == chunks[k + 1..];
  }
}
