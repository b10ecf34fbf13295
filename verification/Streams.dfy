/** Chunked delivery to a decode loop, for any decoder that respects frame boundaries. */
module Streams {
  import opened Bytes

  datatype DecodeState = Success | Incomplete | ChecksumError | InvalidName | DecodeError

  /** Outcome of one decoding attempt; `consumed` bytes leave the buffer. */
  datatype Decoded<+M> = Decoded(state: DecodeState, msg: Option<M>, consumed: nat)

  /** Nothing is decoded before this many bytes are there. */
  const WORD: nat := 4

  // ---- What is asked of a decoder ----------------------------------------

  ghost predicate Progresses<M>(dec: bytes -> Decoded<M>, s: bytes) {
    var d := dec(s);
    && d.consumed <= |s|
    && (d.state == Incomplete <==> d.consumed == 0)
    && (d.state == Success <==> d.msg.Some?)
  }

  /** A complete frame is judged on its own, whatever follows it. */
  ghost predicate Judges<M>(dec: bytes -> Decoded<M>, f: bytes, rest: bytes) {
    dec(f + rest) == dec(f) && dec(f).consumed == |f| && |f| >= WORD
  }

  /** A strict prefix of a frame is left alone. */
  ghost predicate Waits<M>(dec: bytes -> Decoded<M>, f: bytes, k: nat)
    requires k < |f|
  {
    dec(f[..k]).state == Incomplete
  }

  ghost predicate Lively<M>(dec: bytes -> Decoded<M>) {
    forall s :: Progresses(dec, s)
  }

  /** `dec` cuts a stream at the ends of the byte strings accepted by `frame`. */
  ghost predicate Framing<M>(dec: bytes -> Decoded<M>, frame: bytes -> bool) {
    && Lively(dec)
    && (forall f, rest :: frame(f) ==> Judges(dec, f, rest))
    && (forall f, k | 0 <= k < |f| :: frame(f) ==> Waits(dec, f, k))
  }

  // ---- The loop ----------------------------------------------------------

  /** The messages one call of the loop dispatches from `s`, and the bytes it leaves. */
  function Handle<M>(dec: bytes -> Decoded<M>, s: bytes): (seq<M>, bytes)
    requires Lively(dec)
    decreases |s|
  {
    assert Progresses(dec, s);
    if |s| < WORD then ([], s)
    else
      var d := dec(s);
      match d.state
      case Incomplete => ([], s)
      case Success =>
        var (ms, rest) := Handle(dec, s[d.consumed..]);
        ([d.msg.value] + ms, rest)
      case _ => ([], s[d.consumed..])
  }

  /** Append a chunk, run the loop, repeat: everything dispatched, and the final buffer. */
  function Feed<M>(dec: bytes -> Decoded<M>, buf: bytes, chunks: seq<bytes>): (seq<M>, bytes)
    requires Lively(dec)
    decreases chunks
  {
    if chunks == [] then ([], buf)
    else
      var (ms, rest) := Handle(dec, buf + chunks[0]);
      var (more, last) := Feed(dec, rest, chunks[1..]);
      (ms + more, last)
  }

  /** One turn of the loop, after some messages were already dispatched. */
  lemma HandleTurn<M>(dec: bytes -> Decoded<M>, dispatched: seq<M>, s: bytes)
    requires Lively(dec) && |s| >= WORD
    ensures var d := dec(s);
            && d.consumed <= |s|
            && (d.state == Success ==>
                  && d.msg.Some? && d.consumed > 0
                  && dispatched + Handle(dec, s).0 == (dispatched + [d.msg.value]) + Handle(dec, s[d.consumed..]).0
                  && Handle(dec, s).1 == Handle(dec, s[d.consumed..]).1)
            && (d.state != Success ==>
                  dispatched + Handle(dec, s).0 == dispatched && Handle(dec, s).1 == s[d.consumed..])
  {
    assert Progresses(dec, s);
    var d := dec(s);
    if d.state == Success {
      OneMore(dispatched, d.msg.value, Handle(dec, s[d.consumed..]).0);
    } else {
      assert dispatched + [] == dispatched;
    }
  }

  lemma OneMore<M>(xs: seq<M>, x: M, ys: seq<M>)
    ensures xs + ([x] + ys) == (xs + [x]) + ys
  {
  }

  /** One more chunk. */
  lemma {:induction false} FeedMore<M>(dec: bytes -> Decoded<M>, buf: bytes, chunks: seq<bytes>, chunk: bytes)
    requires Lively(dec)
    ensures var (ms, rest) := Feed(dec, buf, chunks);
            && Feed(dec, buf, chunks + [chunk]).0 == ms + Handle(dec, rest + chunk).0
            && Feed(dec, buf, chunks + [chunk]).1 == Handle(dec, rest + chunk).1
    decreases chunks
  {
    if chunks == [] {
      assert chunks + [chunk] == [chunk] && [chunk][1..] == [];
    } else {
      assert (chunks + [chunk])[1..] == chunks[1..] + [chunk];
      FeedMore(dec, Handle(dec, buf + chunks[0]).1, chunks[1..], chunk);
    }
  }

  // ---- Streams of frames -------------------------------------------------

  ghost predicate AllFrames(frame: bytes -> bool, frames: seq<bytes>) {
    forall i :: 0 <= i < |frames| ==> frame(frames[i])
  }

  ghost predicate AllDecode<M>(dec: bytes -> Decoded<M>, frames: seq<bytes>) {
    forall i :: 0 <= i < |frames| ==> dec(frames[i]).state == Success
  }

  function MessageOf<M>(dec: bytes -> Decoded<M>, f: bytes): seq<M> {
    var d := dec(f);
    if d.msg.Some? then [d.msg.value] else []
  }

  /** The messages carried by those frames that decode. */
  function Messages<M>(dec: bytes -> Decoded<M>, frames: seq<bytes>): seq<M> {
    if frames == [] then [] else MessageOf(dec, frames[0]) + Messages(dec, frames[1..])
  }

  lemma {:induction false} MessagesAppend<M>(dec: bytes -> Decoded<M>, xs: seq<bytes>, ys: seq<bytes>)
    ensures Messages(dec, xs + ys) == Messages(dec, xs) + Messages(dec, ys)
  {
    if xs == [] {
      assert xs + ys == ys;
    } else {
      assert (xs + ys)[1..] == xs[1..] + ys;
      MessagesAppend(dec, xs[1..], ys);
    }
  }

  lemma MessagesOne<M>(dec: bytes -> Decoded<M>, f: bytes)
    ensures Messages(dec, [f]) == MessageOf(dec, f)
  {
    assert Messages(dec, [f]) == MessageOf(dec, f) + [];
  }

  /** How many frames lie completely within the first n bytes. */
  function Complete(frames: seq<bytes>, n: nat): (c: nat)
    ensures c <= |frames|
  {
    if frames == [] || n < |frames[0]| then 0 else 1 + Complete(frames[1..], n - |frames[0]|)
  }

  /** The first k frames are the first one and k - 1 of the others. */
  lemma FlattenTake(frames: seq<bytes>, k: nat)
    requires 1 <= k <= |frames|
    ensures Flatten(frames[..k]) == frames[0] + Flatten(frames[1..][..k - 1])
  {
    assert frames[..k][1..] == frames[1..][..k - 1];
  }

  lemma {:induction false} CompleteMeaning(frames: seq<bytes>, n: nat)
    ensures var c := Complete(frames, n);
            && |Flatten(frames[..c])| <= n
            && (c < |frames| ==> n < |Flatten(frames[..c])| + |frames[c]|)
  {
    if frames != [] && n >= |frames[0]| {
      CompleteMeaning(frames[1..], n - |frames[0]|);
      FlattenTake(frames, Complete(frames, n));
    }
  }

  /** Behind its first k frames, of `size` bytes, the stream has k fewer complete ones. */
  lemma {:induction false} CompleteShift(frames: seq<bytes>, k: nat, size: nat, n: nat)
    requires k <= Complete(frames, n) && size == |Flatten(frames[..k])|
    ensures size <= n && Complete(frames[k..], n - size) == Complete(frames, n) - k
  {
    if k == 0 {
      assert frames[0..] == frames;
    } else {
      FlattenTake(frames, k);
      CompleteShift(frames[1..], k - 1, size - |frames[0]|, n - |frames[0]|);
      assert frames[1..][k - 1..] == frames[k..];
    }
  }

  lemma {:induction false} CompleteGrows(frames: seq<bytes>, n: nat, more: nat)
    ensures Complete(frames, n) <= Complete(frames, n + more)
  {
    if frames != [] && n >= |frames[0]| {
      CompleteGrows(frames[1..], n - |frames[0]|, more);
    }
  }

  /** How many complete frames one call handles: up to and including the first that does not decode. */
  function Reach<M>(dec: bytes -> Decoded<M>, fs: seq<bytes>): (k: nat)
    ensures k <= |fs|
  {
    if fs == [] then 0
    else if dec(fs[0]).state != Success then 1
    else 1 + Reach(dec, fs[1..])
  }

  /** A call leaves no complete frame waiting exactly when all of them but the last decode; where it stops
      short, it stops behind a frame that does not. */
  lemma {:induction false} ReachIsAll<M>(dec: bytes -> Decoded<M>, fs: seq<bytes>)
    ensures var k := Reach(dec, fs);
            && (k == |fs| <==> forall i :: 0 <= i < |fs| - 1 ==> dec(fs[i]).state == Success)
            && (forall i :: 0 <= i < k - 1 ==> dec(fs[i]).state == Success)
            && (k < |fs| ==> k > 0 && dec(fs[k - 1]).state != Success)
  {
    if fs != [] && dec(fs[0]).state == Success {
      ReachIsAll(dec, fs[1..]);
      var k := Reach(dec, fs);
      assert forall i :: 1 <= i < |fs| ==> fs[i] == fs[1..][i - 1];
      assert k == |fs| ==> forall i :: 0 <= i < |fs| - 1 ==> dec(fs[i]).state == Success;
      assert forall i :: 0 <= i < |fs| - 2 ==> fs[1..][i] == fs[i + 1];
    }
  }

  lemma CancelPrefix(f: bytes, t: bytes, s: bytes)
    requires s <= f + t && |s| >= |f|
    ensures s == f + s[|f|..] && s[|f|..] <= t
  {
    assert s[..|f|] == f;
    assert s[|f|..] == (f + t)[|f|..][..|s| - |f|];
  }

  lemma HandleShort<M>(dec: bytes -> Decoded<M>, frame: bytes -> bool, f: bytes, s: bytes, more: bytes)
    requires Framing(dec, frame) && frame(f) && s <= f + more && |s| < |f|
    ensures Handle(dec, s).0 == [] && Handle(dec, s).1 == s
  {
    assert s == f[..|s|];
    assert Waits(dec, f, |s|);
  }

  /** A call that finds its first frame complete dispatches its message and goes on, or drops it and stops. */
  lemma HandleFirst<M>(dec: bytes -> Decoded<M>, frame: bytes -> bool, f: bytes, rest: bytes)
    requires Framing(dec, frame) && frame(f)
    ensures dec(f).state == Success ==>
              Handle(dec, f + rest).0 == MessageOf(dec, f) + Handle(dec, rest).0
              && Handle(dec, f + rest).1 == Handle(dec, rest).1
    ensures dec(f).state != Success ==>
              Handle(dec, f + rest).0 == [] == MessageOf(dec, f) && Handle(dec, f + rest).1 == rest
  {
    assert Judges(dec, f, rest);
    assert Progresses(dec, f + rest);
    assert (f + rest)[|f|..] == rest;
  }

  /** Of the bytes `s` the first k frames were handled: `ms` are their messages, `rest` the bytes behind them. */
  ghost predicate Took<M>(dec: bytes -> Decoded<M>, frames: seq<bytes>, k: nat, s: bytes, ms: seq<M>, rest: bytes) {
    k <= |frames| && ms == Messages(dec, frames[..k]) && s == Flatten(frames[..k]) + rest
  }

  lemma TookNone<M>(dec: bytes -> Decoded<M>, frames: seq<bytes>, s: bytes)
    ensures Took(dec, frames, 0, s, [], s)
  {
    assert frames[..0] == [] && [] + s == s;
  }

  lemma TookFirst<M>(dec: bytes -> Decoded<M>, f: bytes, later: seq<bytes>, k: nat, s: bytes, ms: seq<M>, rest: bytes)
    requires Took(dec, later, k, s, ms, rest)
    ensures Took(dec, [f] + later, k + 1, f + s, MessageOf(dec, f) + ms, rest)
  {
    assert ([f] + later)[..k + 1] == [f] + later[..k];
    assert ([f] + later[..k])[1..] == later[..k];
    assert f + (Flatten(later[..k]) + rest) == (f + Flatten(later[..k])) + rest;
  }

  /** One call of the loop on the start of a frame stream, whose frames may be corrupt inside: exactly the
      frames within its reach are handled, and exactly the bytes behind them stay. */
  lemma {:induction false} HandleFrames<M>(dec: bytes -> Decoded<M>, frame: bytes -> bool, frames: seq<bytes>, s: bytes)
    requires Framing(dec, frame) && AllFrames(frame, frames) && s <= Flatten(frames)
    ensures Took(dec, frames, Reach(dec, frames[..Complete(frames, |s|)]), s, Handle(dec, s).0, Handle(dec, s).1)
    decreases frames
  {
    if frames == [] {
      TookNone(dec, frames, s);
      return;
    }
    var f, later := frames[0], frames[1..];
    if |s| < |f| {
      HandleShort(dec, frame, f, s, Flatten(later));
      TookNone(dec, frames, s);
      return;
    }
    CancelPrefix(f, Flatten(later), s);
    var rest := s[|f|..];
    HandleFirst(dec, frame, f, rest);
    ReachFirst(dec, frames, |s|);
    assert frames == [f] + later;
    if dec(f).state == Success {
      HandleFrames(dec, frame, later, rest);
      TookFirst(dec, f, later, Reach(dec, later[..Complete(later, |rest|)]), rest,
                Handle(dec, rest).0, Handle(dec, rest).1);
    } else {
      TookNone(dec, later, rest);
      TookFirst(dec, f, later, 0, rest, [], rest);
    }
  }

  lemma ReachFirst<M>(dec: bytes -> Decoded<M>, frames: seq<bytes>, n: nat)
    requires frames != [] && n >= |frames[0]|
    ensures var later := frames[1..];
            var c := Complete(later, n - |frames[0]|);
            Reach(dec, frames[..Complete(frames, n)])
              == if dec(frames[0]).state == Success then 1 + Reach(dec, later[..c]) else 1
  {
    var c := Complete(frames, n);
    assert frames[..c][1..] == frames[1..][..c - 1];
  }

  // ---- Chunk after chunk -------------------------------------------------

  /** How many frames are handled when the chunks arrive one by one, `have` bytes being there already: each
      call reaches on from where the one before it stopped. */
  function Handled<M>(dec: bytes -> Decoded<M>, frames: seq<bytes>, have: nat, chunks: seq<bytes>): (h: nat)
    ensures h <= Complete(frames, have + |Flatten(chunks)|)
    decreases |chunks|
  {
    if chunks == [] then 0
    else
      var last := |chunks| - 1;
      var h := Handled(dec, frames, have, chunks[..last]);
      ArrivedGrows(frames, have, chunks);
      h + Reach(dec, frames[h..Complete(frames, have + |Flatten(chunks)|)])
  }

  lemma ArrivedGrows(frames: seq<bytes>, have: nat, chunks: seq<bytes>)
    requires chunks != []
    ensures var last := |chunks| - 1;
            && Flatten(chunks) == Flatten(chunks[..last]) + chunks[last]
            && Complete(frames, have + |Flatten(chunks[..last])|) <= Complete(frames, have + |Flatten(chunks)|)
  {
    var last := |chunks| - 1;
    FlattenLast(chunks);
    CompleteGrows(frames, have + |Flatten(chunks[..last])|, |chunks[last]|);
  }

  lemma FlattenLast(chunks: seq<bytes>)
    requires chunks != []
    ensures Flatten(chunks) == Flatten(chunks[..|chunks| - 1]) + chunks[|chunks| - 1]
  {
    var last := |chunks| - 1;
    assert chunks == chunks[..last] + [chunks[last]];
    FlattenAppend(chunks[..last], [chunks[last]]);
    FlattenOne(chunks[last]);
  }

  /** The frames handled after the last chunk, n bytes having arrived, from those handled before it. */
  lemma {:induction false} HandledLast<M>(dec: bytes -> Decoded<M>, frames: seq<bytes>, have: nat,
                                          chunks: seq<bytes>, n: nat)
    requires chunks != [] && n == have + |Flatten(chunks)|
    ensures var h := Handled(dec, frames, have, chunks[..|chunks| - 1]);
            && h <= Complete(frames, n)
            && Handled(dec, frames, have, chunks) == h + Reach(dec, frames[h..Complete(frames, n)])
  {
    ArrivedGrows(frames, have, chunks);
  }

  lemma FeedLast<M>(dec: bytes -> Decoded<M>, buf: bytes, chunks: seq<bytes>)
    requires Lively(dec) && chunks != []
    ensures var (ms, rest) := Feed(dec, buf, chunks[..|chunks| - 1]);
            var (more, last) := Handle(dec, rest + chunks[|chunks| - 1]);
            Feed(dec, buf, chunks).0 == ms + more && Feed(dec, buf, chunks).1 == last
  {
    var last := |chunks| - 1;
    FeedMore(dec, buf, chunks[..last], chunks[last]);
    assert chunks == chunks[..last] + [chunks[last]];
  }

  /** Any cutting of any frame stream, corrupt frames included: the messages dispatched are those of the frames
      handled, in order and once each, and the buffer holds exactly the bytes behind them. */
  lemma {:induction false} EveryFrameOnce<M>(dec: bytes -> Decoded<M>, frame: bytes -> bool,
                                             frames: seq<bytes>, buf: bytes, chunks: seq<bytes>)
    requires Framing(dec, frame) && AllFrames(frame, frames) && buf + Flatten(chunks) <= Flatten(frames)
    ensures Took(dec, frames, Handled(dec, frames, |buf|, chunks), buf + Flatten(chunks),
                 Feed(dec, buf, chunks).0, Feed(dec, buf, chunks).1)
    decreases |chunks|
  {
    if chunks == [] {
      assert buf + [] == buf;
      TookNone(dec, frames, buf);
    } else {
      var init, chunk := chunks[..|chunks| - 1], chunks[|chunks| - 1];
      var s := buf + Flatten(init);
      ArrivedBefore(buf, chunks, Flatten(frames));
      EveryFrameOnce(dec, frame, frames, buf, init);
      HandledLast(dec, frames, |buf|, chunks, |s| + |chunk|);
      FeedLast(dec, buf, chunks);
      var h, c := Handled(dec, frames, |buf|, init), Complete(frames, |s| + |chunk|);
      var before, now := Feed(dec, buf, init), Feed(dec, buf, chunks);
      TookOn(dec, frame, frames, h, c, s, before.0, before.1, chunk,
             Handled(dec, frames, |buf|, chunks), buf + Flatten(chunks), now.0, now.1);
    }
  }

  lemma ArrivedBefore(buf: bytes, chunks: seq<bytes>, all: bytes)
    requires chunks != [] && buf + Flatten(chunks) <= all
    ensures var init, chunk := chunks[..|chunks| - 1], chunks[|chunks| - 1];
            && buf + Flatten(chunks) == (buf + Flatten(init)) + chunk
            && buf + Flatten(init) <= all
            && |buf| + |Flatten(chunks)| == |buf + Flatten(init)| + |chunk|
  {
    var init, chunk := chunks[..|chunks| - 1], chunks[|chunks| - 1];
    FlattenLast(chunks);
    Reassociate(buf, Flatten(init), chunk, all);
  }

  lemma Reassociate(a: bytes, b: bytes, c: bytes, all: bytes)
    requires a + (b + c) <= all
    ensures a + (b + c) == (a + b) + c && a + b <= all
  {
    assert a + (b + c) == (a + b) + c;
    assert a + b == ((a + b) + c)[..|a + b|];
  }

  /** One more chunk for a stream of which h frames are handled and c are complete then: h' are handled, and `all`
      has been received, `ms'` dispatched and `rest'` left. */
  lemma {:induction false} TookOn<M>(dec: bytes -> Decoded<M>, frame: bytes -> bool, frames: seq<bytes>,
                                     h: nat, c: nat, s: bytes, ms: seq<M>, rest: bytes, chunk: bytes,
                                     h': nat, all: bytes, ms': seq<M>, rest': bytes)
    requires Framing(dec, frame) && AllFrames(frame, frames) && Took(dec, frames, h, s, ms, rest)
    requires all == s + chunk && all <= Flatten(frames)
    requires c == Complete(frames, |s| + |chunk|) && h <= c && h' == h + Reach(dec, frames[h..c])
    requires ms' == ms + Handle(dec, rest + chunk).0 && rest' == Handle(dec, rest + chunk).1
    ensures Took(dec, frames, h', all, ms', rest')
  {
    Remaining(frames, h, s, rest, chunk);
    TookBehind(dec, frame, frames, h, |s| - |rest|, rest + chunk, |s| + |chunk|);
    TookChain(dec, frames, h, s, ms, rest, chunk, h' - h, Handle(dec, rest + chunk).0, rest');
  }

  /** The call behind the first h frames, of `size` bytes. */
  lemma {:induction false} TookBehind<M>(dec: bytes -> Decoded<M>, frame: bytes -> bool, frames: seq<bytes>, h: nat,
                                         size: nat, s: bytes, n: nat)
    requires Framing(dec, frame) && AllFrames(frame, frames) && h <= Complete(frames, n)
    requires size == |Flatten(frames[..h])| && n == size + |s| && s <= Flatten(frames[h..])
    ensures Took(dec, frames[h..], Reach(dec, frames[h..Complete(frames, n)]), s, Handle(dec, s).0, Handle(dec, s).1)
  {
    var c := Complete(frames, n);
    HandleFrames(dec, frame, frames[h..], s);
    CompleteShift(frames, h, size, n);
    assert frames[h..][..c - h] == frames[h..c];
  }

  /** Taking k frames, and j more once `later` has arrived. */
  lemma TookChain<M>(dec: bytes -> Decoded<M>, frames: seq<bytes>, k: nat, s: bytes, ms: seq<M>, mid: bytes,
                     later: bytes, j: nat, more: seq<M>, rest: bytes)
    requires Took(dec, frames, k, s, ms, mid) && Took(dec, frames[k..], j, mid + later, more, rest)
    ensures Took(dec, frames, k + j, s + later, ms + more, rest)
  {
    var a, b := frames[..k], frames[k..][..j];
    assert frames[..k + j] == a + b;
    MessagesAppend(dec, a, b);
    FlattenAppend(a, b);
    Regroup(Flatten(a), mid, later, Flatten(b), rest);
  }

  lemma Regroup(a: bytes, mid: bytes, chunk: bytes, b: bytes, rest: bytes)
    requires mid + chunk == b + rest
    ensures (a + mid) + chunk == (a + b) + rest
  {
    assert (a + mid) + chunk == a + (mid + chunk);
    assert a + (b + rest) == (a + b) + rest;
  }

  lemma Remaining(frames: seq<bytes>, k: nat, s: bytes, rest: bytes, later: bytes)
    requires k <= |frames| && s == Flatten(frames[..k]) + rest && s + later <= Flatten(frames)
    ensures rest + later <= Flatten(frames[k..]) && |Flatten(frames[..k])| == |s| - |rest|
  {
    assert frames == frames[..k] + frames[k..];
    FlattenAppend(frames[..k], frames[k..]);
    CancelDone(Flatten(frames[..k]), Flatten(frames[k..]), s, rest, later);
  }

  lemma CancelDone(done: bytes, t: bytes, s: bytes, rest: bytes, later: bytes)
    requires s == done + rest && s + later <= done + t
    ensures rest + later <= t
  {
    assert s + later == done + (rest + later);
    assert (s + later)[|done|..] == rest + later;
    CancelPrefix(done, t, s + later);
  }

  // ---- How far the handling gets -----------------------------------------

  /** After a read no complete frame is left waiting exactly when every frame that waited for it, but the last,
      decodes. */
  lemma {:induction false} NoneWaiting<M>(dec: bytes -> Decoded<M>, frames: seq<bytes>, have: nat, chunks: seq<bytes>)
    requires chunks != []
    ensures var h := Handled(dec, frames, have, chunks[..|chunks| - 1]);
            var c := Complete(frames, have + |Flatten(chunks)|);
            && h <= Handled(dec, frames, have, chunks) <= c
            && (Handled(dec, frames, have, chunks) == c <==>
                  forall i :: h <= i < c - 1 ==> dec(frames[i]).state == Success)
  {
    var n := have + |Flatten(chunks)|;
    HandledLast(dec, frames, have, chunks, n);
    ReachBetween(dec, frames, Handled(dec, frames, have, chunks[..|chunks| - 1]), Complete(frames, n));
  }

  lemma ReachBetween<M>(dec: bytes -> Decoded<M>, frames: seq<bytes>, h: nat, c: nat)
    requires h <= c <= |frames|
    ensures h + Reach(dec, frames[h..c]) <= c
    ensures h + Reach(dec, frames[h..c]) == c <==> forall i :: h <= i < c - 1 ==> dec(frames[i]).state == Success
  {
    var fs := frames[h..c];
    ReachIsAll(dec, fs);
    assert forall i :: 0 <= i < |fs| ==> fs[i] == frames[h + i];
    assert forall i :: h <= i < c ==> frames[i] == fs[i - h];
  }

  /** Number of frames that do not decode. */
  function Faults<M>(dec: bytes -> Decoded<M>, fs: seq<bytes>): nat {
    if fs == [] then 0 else (if dec(fs[0]).state == Success then 0 else 1) + Faults(dec, fs[1..])
  }

  lemma {:induction false} FaultsFrom<M>(dec: bytes -> Decoded<M>, fs: seq<bytes>)
    ensures var k := Reach(dec, fs); k < |fs| ==> Faults(dec, fs) == 1 + Faults(dec, fs[k..])
  {
    if fs != [] && dec(fs[0]).state == Success {
      FaultsFrom(dec, fs[1..]);
      assert fs[1..][Reach(dec, fs[1..])..] == fs[Reach(dec, fs)..];
    }
  }

  /** Where a longer list is not reached to the end, no shorter one that ends behind that point is. */
  lemma {:induction false} ReachStops<M>(dec: bytes -> Decoded<M>, fs: seq<bytes>, c: nat)
    requires c <= |fs| && Reach(dec, fs) < c
    ensures Reach(dec, fs[..c]) == Reach(dec, fs)
  {
    assert fs[..c][0] == fs[0];
    if dec(fs[0]).state == Success {
      assert fs[..c][1..] == fs[1..][..c - 1];
      ReachStops(dec, fs[1..], c - 1);
    }
  }

  lemma OneFaultLess<M>(dec: bytes -> Decoded<M>, frames: seq<bytes>, h: nat, c: nat, whole: nat)
    requires h <= c <= whole <= |frames| && h + Reach(dec, frames[h..whole]) < c
    ensures var now := h + Reach(dec, frames[h..whole]);
            Faults(dec, frames[h..c]) == 1 + Faults(dec, frames[now..c])
  {
    var k := Reach(dec, frames[h..whole]);
    assert frames[h..whole][..c - h] == frames[h..c];
    ReachStops(dec, frames[h..whole], c - h);
    FaultsFrom(dec, frames[h..c]);
    assert frames[h..c][k..] == frames[h + k..c];
  }

  /** A frame that does not decode delays the ones behind it by no more than one further read: frames already
      complete are all handled by as many reads as there are faults among them, and one. */
  lemma CatchesUp<M>(dec: bytes -> Decoded<M>, frames: seq<bytes>, have: nat, c: nat, chunks: seq<bytes>)
    requires c <= Complete(frames, have) && Faults(dec, frames[..c]) < |chunks|
    ensures Handled(dec, frames, have, chunks) >= c
  {
    FaultsLeft(dec, frames, have, c, chunks);
  }

  lemma {:induction false} FaultsLeft<M>(dec: bytes -> Decoded<M>, frames: seq<bytes>, have: nat, c: nat,
                                         chunks: seq<bytes>)
    requires c <= Complete(frames, have)
    ensures var h := Handled(dec, frames, have, chunks);
            h < c ==> Faults(dec, frames[h..c]) + |chunks| <= Faults(dec, frames[..c])
    decreases |chunks|
  {
    if chunks == [] {
      assert frames[0..c] == frames[..c];
    } else {
      var init := chunks[..|chunks| - 1];
      FaultsLeft(dec, frames, have, c, init);
      HandledLast(dec, frames, have, chunks, have + |Flatten(chunks)|);
      var h, whole := Handled(dec, frames, have, init), Complete(frames, have + |Flatten(chunks)|);
      CompleteGrows(frames, have, |Flatten(chunks)|);
      if h + Reach(dec, frames[h..whole]) < c {
        OneFaultLess(dec, frames, h, c, whole);
      }
    }
  }

  /** Up to and including the first fault no frame waits. */
  lemma {:induction false} UpToFault<M>(dec: bytes -> Decoded<M>, frames: seq<bytes>, have: nat,
                                        chunks: seq<bytes>, i: nat)
    requires chunks != [] && forall q :: 0 <= q < i && q < |frames| ==> dec(frames[q]).state == Success
    ensures Handled(dec, frames, have, chunks) > i
         || Handled(dec, frames, have, chunks) == Complete(frames, have + |Flatten(chunks)|)
  {
    HandledLast(dec, frames, have, chunks, have + |Flatten(chunks)|);
    var h := Handled(dec, frames, have, chunks[..|chunks| - 1]);
    var c := Complete(frames, have + |Flatten(chunks)|);
    var k := Reach(dec, frames[h..c]);
    ReachIsAll(dec, frames[h..c]);
    assert k < c - h ==> frames[h..c][k - 1] == frames[h + k - 1];
  }

  /** With frame i the only fault, nothing complete is left waiting exactly when frame i was complete before the
      last read, or is the last complete one. */
  lemma {:induction false} SingleFault<M>(dec: bytes -> Decoded<M>, frames: seq<bytes>, chunks: seq<bytes>, i: nat)
    requires chunks != [] && i < |frames| && Complete(frames, 0) == 0
    requires forall q :: 0 <= q < |frames| ==> (dec(frames[q]).state == Success <==> q != i)
    ensures var c := Complete(frames, |Flatten(chunks)|);
            Handled(dec, frames, 0, chunks) == c
            <==> Complete(frames, |Flatten(chunks[..|chunks| - 1])|) > i || c <= i + 1
  {
    var init := chunks[..|chunks| - 1];
    NoneWaiting(dec, frames, 0, chunks);
    if init != [] {
      UpToFault(dec, frames, 0, init, i);
    }
    var h, c := Handled(dec, frames, 0, init), Complete(frames, |Flatten(chunks)|);
    assert h > i <==> Complete(frames, |Flatten(init)|) > i;
    assert (forall q :: h <= q && q + 1 < c ==> dec(frames[q]).state == Success) <==> !(h <= i && i + 1 < c) by {
      assert h <= i && i + 1 < c ==> dec(frames[i]).state != Success;
    }
  }

  lemma {:induction false} AllComplete(fs: seq<bytes>)
    ensures Complete(fs, |Flatten(fs)|) == |fs|
  {
    if fs != [] {
      AllComplete(fs[1..]);
    }
  }

  lemma {:induction false} SingleFaultInAll<M>(dec: bytes -> Decoded<M>, frames: seq<bytes>, chunks: seq<bytes>, i: nat)
    requires i < |frames| && Complete(frames, 0) == 0 && Flatten(chunks) == Flatten(frames)
    requires forall q :: 0 <= q < |frames| ==> (dec(frames[q]).state == Success <==> q != i)
    ensures chunks != [] && i < Handled(dec, frames, 0, chunks) <= |frames|
    ensures Handled(dec, frames, 0, chunks) == |frames|
       <==> Complete(frames, |Flatten(chunks[..|chunks| - 1])|) > i || i == |frames| - 1
  {
    AllComplete(frames);
    UpToFault(dec, frames, 0, chunks, i);
    SingleFault(dec, frames, chunks, i);
  }

  /** It does delay them: behind a frame that does not decode a complete frame stays in the buffer, where one
      read less or an end of file leaves it; cut between the two, the same bytes are dispatched. */
  lemma GoodBehindBad<M>(dec: bytes -> Decoded<M>, frame: bytes -> bool, bad: bytes, good: bytes)
    requires Framing(dec, frame) && frame(bad) && frame(good)
    requires dec(bad).state != Success && dec(good).state == Success
    ensures Feed(dec, [], [bad + good]) == ([], good)
    ensures Feed(dec, [], [bad, good]) == (MessageOf(dec, good), [])
  {
    HandleFirst(dec, frame, bad, good);
    HandleFirst(dec, frame, bad, []);
    HandleFirst(dec, frame, good, []);
    assert Handle(dec, []) == ([], []);
    OneChunk(dec, bad + good);
    OneChunk(dec, bad);
    FeedMore(dec, [], [bad], good);
    assert [bad] + [good] == [bad, good] && bad + [] == bad && good + [] == good && [] + good == good;
    var m := MessageOf(dec, good);
    assert m + [] == m && [] + m == m;
  }

  lemma OneChunk<M>(dec: bytes -> Decoded<M>, chunk: bytes)
    requires Lively(dec)
    ensures Feed(dec, [], [chunk]) == Handle(dec, chunk)
  {
    assert [] + chunk == chunk && [chunk][1..] == [];
    var (ms, rest) := Handle(dec, chunk);
    assert ms + [] == ms;
  }

  // ---- Streams without faults --------------------------------------------

  lemma NothingYet<M>(dec: bytes -> Decoded<M>, frame: bytes -> bool, frames: seq<bytes>)
    requires Framing(dec, frame) && AllFrames(frame, frames)
    ensures Complete(frames, 0) == 0
  {
    if frames != [] { assert Judges(dec, frames[0], []); }
  }

  /** When all frames decode, any cutting handles exactly the complete ones. */
  lemma HandledAll<M>(dec: bytes -> Decoded<M>, frame: bytes -> bool, frames: seq<bytes>, chunks: seq<bytes>)
    requires Framing(dec, frame) && AllFrames(frame, frames) && AllDecode(dec, frames)
    ensures Handled(dec, frames, 0, chunks) == Complete(frames, |Flatten(chunks)|)
  {
    NothingYet(dec, frame, frames);
    if chunks != [] {
      NoneWaiting(dec, frames, 0, chunks);
    }
  }

  /** The first `cut` bytes of a stream of frames that all decode: exactly the complete frames are done, and
      the buffer holds exactly the bytes behind them. */
  lemma Deliver<M>(dec: bytes -> Decoded<M>, frame: bytes -> bool, frames: seq<bytes>, cut: nat, chunks: seq<bytes>)
      returns (done: seq<bytes>, todo: seq<bytes>)
    requires Framing(dec, frame) && AllFrames(frame, frames) && AllDecode(dec, frames)
    requires cut <= |Flatten(frames)| && Flatten(chunks) == Flatten(frames)[..cut]
    ensures frames == done + todo
    ensures |Flatten(done)| <= cut && (todo != [] ==> cut < |Flatten(done)| + |todo[0]|)
    ensures Feed(dec, [], chunks).0 == Messages(dec, done)
    ensures Feed(dec, [], chunks).1 == Flatten(frames)[|Flatten(done)|..cut]
  {
    StartOfStream(Flatten(frames), cut, Flatten(chunks));
    HandledAll(dec, frame, frames, chunks);
    EveryFrameOnce(dec, frame, frames, [], chunks);
    var c := Complete(frames, cut);
    CompleteMeaning(frames, cut);
    done, todo := frames[..c], frames[c..];
    LeftOver(Flatten(frames), Flatten(done), Feed(dec, [], chunks).1, cut);
  }

  lemma StartOfStream(all: bytes, cut: nat, s: bytes)
    requires cut <= |all| && s == all[..cut]
    ensures [] + s == s && s <= all
  {
  }

  lemma LeftOver(all: bytes, done: bytes, rest: bytes, cut: nat)
    requires cut <= |all| && all[..cut] == done + rest
    ensures |done| <= cut && rest == all[|done|..cut] && |rest| == cut - |done|
  {
    assert all[|done|..cut] == all[..cut][|done|..];
  }
}
