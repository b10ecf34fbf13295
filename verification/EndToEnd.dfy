/** From the sends on one connection to the messages its peer dispatches. */
module EndToEnd {
  import opened Bytes
  import opened Streams
  import opened Codec
  import opened Handler
  import opened Connection

  /** Whatever mix of work submits the frames of the messages, with whatever partial writes, and however the first
      `cut` bytes the socket took are cut into reads: exactly the messages of the complete frames are
      dispatched, and the others are, byte for byte, in the receive buffer, on the way or in the send buffer. */
  lemma Delivered<M(!new)>(p: Pool<M>, ws: seq<Work<M>>, ms: seq<M>, cut: nat, chunks: seq<bytes>) returns (j: nat)
    requires Lawful(p) && AllEncodable(p, ms)
    requires OPENED.Valid() && AllFit(p, OPENED, ws) && !Loses(p, OPENED, ws)
    requires AllSubmitted(p, ws) == Flatten(Frames(p, ms))
    requires var wire := AfterAll(p, OPENED, ws).wire; cut <= |wire| && Flatten(chunks) == wire[..cut]
    ensures Lively(Decoder(p)) && j <= |ms|
    ensures Feed(Decoder(p), [], chunks).0 == ms[..j]
    ensures j < |ms| ==> cut < |Flatten(Frames(p, ms[..j + 1]))|
    ensures var out := AfterAll(p, OPENED, ws);
            Feed(Decoder(p), [], chunks).1 + (out.wire[cut..] + out.buffer.contents) == Flatten(Frames(p, ms[j..]))
  {
    var out, all := AfterAll(p, OPENED, ws), Flatten(Frames(p, ms));
    Conservation(p, OPENED, ws);
    FromStart(out.Stream(), all);
    WireFirst(out.wire, out.buffer.contents, all, cut);
    j := ChunkedDelivery(p, ms, cut, chunks);
    Undispatched(p, ms, j, cut);
    RestOf(all, |Flatten(Frames(p, ms[..j]))|, cut, out.wire[cut..] + out.buffer.contents);
  }

  lemma FromStart(stream: bytes, all: bytes)
    requires stream == OPENED.Stream() + all
    ensures stream == all
  {
    assert OPENED.Stream() == [];
  }

  lemma WireFirst(wire: bytes, kept: bytes, all: bytes, cut: nat)
    requires wire + kept == all && cut <= |wire|
    ensures wire[..cut] == all[..cut] && wire[cut..] + kept == all[cut..]
  {
  }

  lemma RestOf(all: bytes, from: nat, cut: nat, behind: bytes)
    requires from <= cut <= |all| && behind == all[cut..]
    ensures all[from..cut] + behind == all[from..]
  {
  }

  lemma Undispatched<M>(p: Pool<M>, ms: seq<M>, j: nat, cut: nat)
    requires AllEncodable(p, ms) && j <= |ms| && |Flatten(Frames(p, ms[..j]))| <= cut <= |Flatten(Frames(p, ms))|
    ensures Flatten(Frames(p, ms))[|Flatten(Frames(p, ms[..j]))|..] == Flatten(Frames(p, ms[j..]))
  {
    var fs := Frames(p, ms);
    FramesSlice(p, ms, 0, j);
    FramesSlice(p, ms, j, |ms|);
    assert ms[0..j] == ms[..j] && fs[0..j] == fs[..j] && ms[j..|ms|] == ms[j..] && fs[j..|ms|] == fs[j..];
    assert fs == fs[..j] + fs[j..];
    FlattenAppend(fs[..j], fs[j..]);
  }

  // ---- Messages sent through the handler ---------------------------------

  /** The messages passed to `ProtobufHandler::Send`. */
  function Encoded<M>(ws: seq<Work<M>>): seq<M> {
    if ws == [] then []
    else if ws[0].Direct? then [ws[0].m] + Encoded(ws[1..])
    else Encoded(ws[1..])
  }

  /** Work that submits nothing else: encodable messages, writable events, closing. */
  predicate OnlyMessages<M>(p: Pool<M>, ws: seq<Work<M>>) {
    forall i :: 0 <= i < |ws| ==>
      ws[i].Writable? || ws[i].Close? || (ws[i].Direct? && Encodable(p, ws[i].m))
  }

  lemma {:induction false} EncodedSubmits<M>(p: Pool<M>, ws: seq<Work<M>>)
    requires OnlyMessages(p, ws)
    ensures AllEncodable(p, Encoded(ws)) && AllSubmitted(p, ws) == Flatten(Frames(p, Encoded(ws)))
    decreases ws
  {
    if ws != [] {
      EncodedSubmits(p, ws[1..]);
      if ws[0].Direct? {
        FirstFrame(p, ws[0].m, Encoded(ws[1..]));
      }
    }
  }

  lemma FirstFrame<M>(p: Pool<M>, m: M, ms: seq<M>)
    requires Encodable(p, m) && AllEncodable(p, ms)
    ensures AllEncodable(p, [m] + ms) && Flatten(Frames(p, [m] + ms)) == Frame(p, m) + Flatten(Frames(p, ms))
  {
    assert Frames(p, [m] + ms) == [Frame(p, m)] + Frames(p, ms);
    assert ([Frame(p, m)] + Frames(p, ms))[1..] == Frames(p, ms);
  }

  lemma {:induction false} NothingLost<M>(p: Pool<M>, o: Out, ws: seq<Work<M>>)
    requires OnlyMessages(p, ws) && o.Valid() && AllFit(p, o, ws)
    ensures !Loses(p, o, ws)
    decreases ws
  {
    if ws != [] {
      NothingLost(p, After(p, o, ws[0]), ws[1..]);
    }
  }

  lemma WholeWire(wire: bytes, kept: bytes)
    ensures wire[..|wire|] == wire && wire[|wire|..] + kept == kept
  {
  }

  /** Messages sent through the handler arrive in order and once each, as far as their bytes have arrived. */
  lemma MessagesDelivered<M(!new)>(p: Pool<M>, ws: seq<Work<M>>, chunks: seq<bytes>) returns (j: nat)
    requires Lawful(p) && OnlyMessages(p, ws) && OPENED.Valid() && AllFit(p, OPENED, ws)
    requires Flatten(chunks) == AfterAll(p, OPENED, ws).wire
    ensures Lively(Decoder(p)) && AllEncodable(p, Encoded(ws)) && j <= |Encoded(ws)|
    ensures Feed(Decoder(p), [], chunks).0 == Encoded(ws)[..j]
    ensures Feed(Decoder(p), [], chunks).1 + AfterAll(p, OPENED, ws).buffer.contents
         == Flatten(Frames(p, Encoded(ws)[j..]))
  {
    EncodedSubmits(p, ws);
    NothingLost(p, OPENED, ws);
    var out := AfterAll(p, OPENED, ws);
    WholeWire(out.wire, out.buffer.contents);
    j := Delivered(p, ws, Encoded(ws), |out.wire|, chunks);
  }
}
