/** `net/protobuf/Codec.cpp`: the frame  length | name length | name | payload | Adler-32. */
module Codec {
  import opened Bytes
  import opened Adler
  import opened Buffers
  import opened Streams

  // HEADER_LEN, NAME_LEN_SIZE and CHECKSUM_LEN are all one WORD.
  const MIN_LEN: nat := 9
  const MAX_LEN: nat := 64 * 1024 * 1024
  const INT32_MAX: nat := 0x7fff_ffff

  /** The generated message types: what the protobuf library knows and does. */
  datatype Pool<!M> = Pool(
    nameOf: M -> bytes,
    byteSize: M -> nat,
    serialize: M -> Option<bytes>,
    known: bytes -> bool,
    parse: (bytes, bytes) -> Option<M>)

  /** Protobuf's own promises: a serialized message has the announced size and parses back. */
  ghost predicate Lawful<M(!new)>(p: Pool<M>) {
    forall m: M :: p.serialize(m).Some? ==>
      && |p.serialize(m).value| == p.byteSize(m)
      && p.known(p.nameOf(m))
      && p.parse(p.nameOf(m), p.serialize(m).value) == Some(m)
  }

  // ---- Frames ------------------------------------------------------------

  /** The value of the length header. */
  function TotalLen<M>(p: Pool<M>, m: M): nat {
    WORD + |p.nameOf(m)| + p.byteSize(m) + WORD
  }

  /** `Encode` computes in `int32_t`; longer messages overflow it. */
  predicate Representable<M>(p: Pool<M>, m: M) {
    p.serialize(m).Some? && |p.serialize(m).value| == p.byteSize(m) && WORD + TotalLen(p, m) <= INT32_MAX
  }

  /** What the decoder's limits let through. */
  predicate Encodable<M>(p: Pool<M>, m: M) {
    p.serialize(m).Some? && |p.serialize(m).value| == p.byteSize(m) && |p.nameOf(m)| > 0 && TotalLen(p, m) <= MAX_LEN
  }

  /** A frame around any checksummed region. */
  function Seal(body: bytes): (f: bytes)
    requires |body| + WORD <= INT32_MAX
    ensures |f| == |body| + 2 * WORD
  {
    Put32(|body| + WORD) + body + Put32(Adler32(body))
  }

  function Body(name: bytes, payload: bytes): bytes
    requires |name| <= INT32_MAX
  {
    Put32(|name|) + name + payload
  }

  function Frame<M>(p: Pool<M>, m: M): (f: bytes)
    requires Representable(p, m)
    ensures |f| == WORD + TotalLen(p, m)
  {
    Seal(Body(p.nameOf(m), p.serialize(m).value))
  }

  // ---- Decoding a byte string --------------------------------------------

  function LengthField(s: bytes): int
    requires |s| >= WORD
  {
    ToInt32(Get32(s[..WORD]))
  }

  /** `Decode` on the readable bytes: its state, its message and how many bytes it retrieves. */
  function DecodeBytes<M>(p: Pool<M>, s: bytes): Decoded<M> {
    if |s| < WORD then Decoded(Incomplete, None, 0)
    else
      var len := LengthField(s);
      if len < MIN_LEN || len > MAX_LEN then Decoded(DecodeError, None, |s|)
      else if |s| < WORD + len then Decoded(Incomplete, None, 0)
      else
        var (state, msg) := JudgeFrame(p, s, len);
        Decoded(state, msg, WORD + len)
  }

  /** The verdict on a complete frame whose length header is `len`. */
  function JudgeFrame<M>(p: Pool<M>, s: bytes, len: nat): (DecodeState, Option<M>)
    requires MIN_LEN <= len && WORD + len <= |s|
  {
    var body := s[WORD..len];
    var expected := ToInt32(Get32(s[len..WORD + len]));
    if ToInt32(Adler32(body)) != expected then (ChecksumError, None) else DecodeBody(p, body)
  }

  /** The part of `Decode` after the checksum has been verified. */
  function DecodeBody<M>(p: Pool<M>, body: bytes): (DecodeState, Option<M>)
    requires |body| >= MIN_LEN - WORD
  {
    var nameLen := LengthField(body);
    if nameLen <= 0 || nameLen > |body| - WORD then (DecodeError, None)
    else
      var name := body[WORD..WORD + nameLen];
      if !p.known(name) then (InvalidName, None)
      else
        match p.parse(name, body[WORD + nameLen..])
        case None => (DecodeError, None)
        case Some(m) => (Success, Some(m))
  }

  /** How much `Decode` consumes on arbitrary bytes, state by state. */
  lemma DecodeConsumes<M>(p: Pool<M>, s: bytes)
    ensures var d := DecodeBytes(p, s);
            && d.consumed <= |s|
            && (d.state == Incomplete <==> d.consumed == 0)
            && (d.state == Success <==> d.msg.Some?)
            && (d.state == Success ==> d.consumed >= WORD + MIN_LEN)
            && (d.state != Incomplete ==>
                  if MIN_LEN <= LengthField(s) <= MAX_LEN then d.consumed == WORD + LengthField(s)
                  else d.consumed == |s| && d.state == DecodeError)
  {
  }

  /** Bytes whose length header is in range and agrees with their number. */
  predicate WellFramed(f: bytes) {
    |f| >= WORD && MIN_LEN <= LengthField(f) <= MAX_LEN && |f| == WORD + LengthField(f)
  }

  /** A complete frame is judged on its own, whatever follows it. */
  lemma DecodeFrame<M>(p: Pool<M>, f: bytes, rest: bytes)
    requires WellFramed(f)
    ensures DecodeBytes(p, f + rest) == DecodeBytes(p, f)
    ensures DecodeBytes(p, f).consumed == |f|
  {
    var s, len := f + rest, LengthField(f);
    assert s[..WORD] == f[..WORD];
    assert s[WORD..len] == f[WORD..len];
    assert s[len..WORD + len] == f[len..WORD + len];
  }

  /** Every strict prefix of a frame is incomplete and consumes nothing. */
  lemma DecodePrefix<M>(p: Pool<M>, f: bytes, k: nat)
    requires WellFramed(f) && k < |f|
    ensures DecodeBytes(p, f[..k]) == Decoded(Incomplete, None, 0)
  {
    if k >= WORD {
      assert f[..k][..WORD] == f[..WORD];
    }
  }

  // ---- Encode and Decode -------------------------------------------------

  lemma SealFields(body: bytes)
    requires |body| + WORD <= INT32_MAX
    ensures LengthField(Seal(body)) == |body| + WORD
    ensures Seal(body)[WORD..WORD + |body|] == body
    ensures Get32(Seal(body)[WORD + |body|..]) == Adler32(body)
  {
    var f := Seal(body);
    assert f[..WORD] == Put32(|body| + WORD);
    assert f[WORD + |body|..] == Put32(Adler32(body));
    WordRoundTrip(|body| + WORD);
    WordRoundTrip(Adler32(body));
  }

  lemma BodyFields(name: bytes, payload: bytes)
    requires |name| <= INT32_MAX
    ensures var b := Body(name, payload);
            LengthField(b) == |name| && b[WORD..WORD + |name|] == name && b[WORD + |name|..] == payload
  {
    var b := Body(name, payload);
    assert b[..WORD] == Put32(|name|);
    WordRoundTrip(|name|);
  }

  /** The frame, byte for byte: length of what follows, length of the name, name, payload, and the checksum of all
      between the first and the last word. */
  lemma FrameLayout<M>(p: Pool<M>, m: M)
    requires Representable(p, m)
    ensures var f, name, payload := Frame(p, m), p.nameOf(m), p.serialize(m).value;
            var n := |name|;
            && |f| == 12 + n + |payload|
            && Get32(f[..4]) == 8 + n + |payload| && Get32(f[4..8]) == n
            && f[8..8 + n] == name && f[8 + n..|f| - 4] == payload
            && Get32(f[|f| - 4..]) == Adler32(f[4..|f| - 4])
  {
    var name, payload := p.nameOf(m), p.serialize(m).value;
    WordRoundTrip(8 + |name| + |payload|);
    WordRoundTrip(|name|);
    SealFields(Body(name, payload));
    FramePieces(Put32(8 + |name| + |payload|), Put32(|name|), name, payload, Put32(Adler32(Body(name, payload))));
  }

  lemma FramePieces(header: bytes, nameField: bytes, name: bytes, payload: bytes, trailer: bytes)
    requires |header| == |nameField| == |trailer| == 4
    ensures var f := header + (nameField + name + payload) + trailer;
            && f[..4] == header && f[4..8] == nameField && f[8..8 + |name|] == name
            && f[8 + |name|..|f| - 4] == payload && f[|f| - 4..] == trailer
            && f[4..|f| - 4] == nameField + name + payload
  {
  }

  /** The lengths the decoder accepts, in bytes. */
  lemma LengthLimits<M>(p: Pool<M>, s: bytes)
    requires |s| >= 4
    ensures WellFramed(s) <==> 13 <= |s| <= 67108868 && LengthField(s) == |s| - 4
    ensures (LengthField(s) < 9 || LengthField(s) > 67108864)
       <==> (DecodeBytes(p, s) == Decoded(DecodeError, None, |s|) && !WellFramed(s))
  {
  }

  /** An intact frame whose name would not lie inside it does not decode. */
  lemma NameOutside<M>(p: Pool<M>, f: bytes, rest: bytes)
    requires Intact(f)
    requires var nameLen := LengthField(f[4..|f| - 4]); nameLen <= 0 || nameLen > |f| - 12
    ensures DecodeBytes(p, f + rest) == Decoded(DecodeError, None, |f|)
  {
    DecodeFrame(p, f, rest);
    assert f[LengthField(f)..WORD + LengthField(f)] == f[|f| - WORD..];
  }

  /** The verdict on a sealed body, followed by anything: every outcome but Incomplete, each with its cause. */
  lemma SealedVerdict<M>(p: Pool<M>, name: bytes, payload: bytes, rest: bytes)
    requires |name| + |payload| + 3 * WORD <= INT32_MAX
    ensures var f := Seal(Body(name, payload));
            var d := DecodeBytes(p, f + rest);
            if |f| - WORD < MIN_LEN || |f| - WORD > MAX_LEN then d == Decoded(DecodeError, None, |f + rest|)
            else if name == [] then d == Decoded(DecodeError, None, |f|)
            else if !p.known(name) then d == Decoded(InvalidName, None, |f|)
            else match p.parse(name, payload)
                 case None => d == Decoded(DecodeError, None, |f|)
                 case Some(m) => d == Decoded(Success, Some(m), |f|)
  {
    var body := Body(name, payload);
    var f := Seal(body);
    SealFields(body);
    BodyFields(name, payload);
    assert (f + rest)[..WORD] == f[..WORD];
    if WellFramed(f) {
      DecodeFrame(p, f, rest);
      assert f[LengthField(f)..WORD + LengthField(f)] == f[WORD + |body|..];
    }
  }

  /** Decoding what was encoded, followed by anything, succeeds exactly for encodable messages. */
  lemma RoundTrip<M(!new)>(p: Pool<M>, m: M, rest: bytes)
    requires Lawful(p) && Representable(p, m)
    ensures DecodeBytes(p, Frame(p, m) + rest).state == Success <==> Encodable(p, m)
    ensures Encodable(p, m) ==>
              WellFramed(Frame(p, m))
              && DecodeBytes(p, Frame(p, m) + rest) == Decoded(Success, Some(m), |Frame(p, m)|)
    ensures !Encodable(p, m) ==> DecodeBytes(p, Frame(p, m) + rest).state == DecodeError
  {
    SealFields(Body(p.nameOf(m), p.serialize(m).value));
    SealedVerdict(p, p.nameOf(m), p.serialize(m).value, rest);
  }

  /** Conversely, whatever decodes is a frame: header, name, payload and checksum as `Encode` writes them. */
  lemma DecodeIsSound<M>(p: Pool<M>, s: bytes) returns (name: bytes, payload: bytes)
    requires DecodeBytes(p, s).state == Success
    ensures |name| + |payload| + 3 * WORD <= INT32_MAX && name != []
    ensures s[..DecodeBytes(p, s).consumed] == Seal(Body(name, payload))
    ensures p.known(name) && p.parse(name, payload) == DecodeBytes(p, s).msg
  {
    var len := LengthField(s);
    var body := s[WORD..len];
    var nameLen := LengthField(body);
    name, payload := body[WORD..WORD + nameLen], body[WORD + nameLen..];
    BodyOfFields(body, nameLen);
    FrameOfFields(s, len);
  }

  lemma BodyOfFields(body: bytes, nameLen: nat)
    requires WORD + nameLen <= |body| && nameLen == LengthField(body)
    ensures body == Body(body[WORD..WORD + nameLen], body[WORD + nameLen..])
  {
    BytesRoundTrip(body[..WORD]);
    assert body == body[..WORD] + body[WORD..WORD + nameLen] + body[WORD + nameLen..];
  }

  lemma FrameOfFields(s: bytes, len: nat)
    requires MIN_LEN <= len <= MAX_LEN && WORD + len <= |s| && len == LengthField(s)
    requires ToInt32(Adler32(s[WORD..len])) == ToInt32(Get32(s[len..WORD + len]))
    ensures s[..WORD + len] == Seal(s[WORD..len])
  {
    BytesRoundTrip(s[..WORD]);
    BytesRoundTrip(s[len..WORD + len]);
    assert s[..WORD + len] == s[..WORD] + s[WORD..len] + s[len..WORD + len];
  }

  // ---- Corruption --------------------------------------------------------

  /** Decode reports a checksum error on a frame exactly when its body and its trailer disagree. */
  lemma ChecksumErrorIff<M>(p: Pool<M>, f: bytes, rest: bytes)
    requires WellFramed(f)
    ensures DecodeBytes(p, f + rest).state == ChecksumError
       <==> Adler32(f[WORD..|f| - WORD]) != Get32(f[|f| - WORD..])
    ensures (f + rest)[DecodeBytes(p, f + rest).consumed..] == rest
  {
    DecodeFrame(p, f, rest);
    assert f[LengthField(f)..WORD + LengthField(f)] == f[|f| - WORD..];
  }

  ghost predicate Intact(f: bytes) {
    WellFramed(f) && Adler32(f[WORD..|f| - WORD]) == Get32(f[|f| - WORD..])
  }

  lemma HeaderUntouched(f: bytes, g: bytes)
    requires WellFramed(f) && |g| == |f| && g[..WORD] == f[..WORD]
    ensures WellFramed(g)
  {
  }

  /** One changed byte behind the length header: a checksum error that consumes just this frame. */
  lemma OneByteCorrupted<M>(p: Pool<M>, f: bytes, i: nat, v: byte, rest: bytes)
    requires Intact(f) && WORD <= i < |f| && v != f[i]
    ensures var d := DecodeBytes(p, f[i := v] + rest);
            d.state == ChecksumError && (f[i := v] + rest)[d.consumed..] == rest
  {
    HeaderUntouched(f, f[i := v]);
    ByteNoticed(f, i, v);
    ChecksumErrorIff(p, f[i := v], rest);
  }

  lemma ByteNoticed(f: bytes, i: nat, v: byte)
    requires Intact(f) && WORD <= i < |f| && v != f[i]
    ensures var g := f[i := v]; Adler32(g[WORD..|g| - WORD]) != Get32(g[|g| - WORD..])
  {
    var g, n := f[i := v], |f| - WORD;
    if i < n {
      assert g[WORD..n] == f[WORD..n][i - WORD := v];
      SingleByteDetected(f[WORD..n], i - WORD, v);
      assert g[n..] == f[n..];
    } else {
      assert g[WORD..n] == f[WORD..n];
      BytesRoundTrip(f[n..]);
      BytesRoundTrip(g[n..]);
      assert g[n..][i - n] != f[n..][i - n];
    }
  }

  /** Two changed bytes of the checksummed region: undetected exactly when they are opposite and
      a multiple of 65521 positions apart; either way this frame alone is consumed. */
  lemma TwoBytesCorrupted<M>(p: Pool<M>, f: bytes, i: nat, j: nat, v: byte, w: byte, rest: bytes)
    requires Intact(f) && WORD <= i < j < |f| - WORD && v != f[i] && w != f[j]
    ensures var g := f[i := v][j := w];
            var d := DecodeBytes(p, g + rest);
            && (d.state != ChecksumError <==> v - f[i] == f[j] - w && Multiple(j - i))
            && (g + rest)[d.consumed..] == rest
  {
    PairVerdict(p, f, i, j, v, w, rest);
    TwoBytesDetected(f[WORD..|f| - WORD], i - WORD, j - WORD, v, w);
  }

  /** Two changed bytes of the checksummed region: all depends on the checksums of the two bodies. */
  lemma PairVerdict<M>(p: Pool<M>, f: bytes, i: nat, j: nat, v: byte, w: byte, rest: bytes)
    requires Intact(f) && WORD <= i < j < |f| - WORD
    ensures var g, body := f[i := v][j := w], f[WORD..|f| - WORD];
            var d := DecodeBytes(p, g + rest);
            && (d.state != ChecksumError <==> Adler32(body[i - WORD := v][j - WORD := w]) == Adler32(body))
            && (g + rest)[d.consumed..] == rest
  {
    var g := f[i := v][j := w];
    TwoChanges(f, i, j, v, w);
    HeaderUntouched(f, g);
    ChecksumErrorIff(p, g, rest);
  }

  /** In particular every pair of changes less than 65521 positions apart is a checksum error. */
  lemma NearbyPairCorrupted<M>(p: Pool<M>, f: bytes, i: nat, j: nat, v: byte, w: byte, rest: bytes)
    requires Intact(f) && WORD <= i < j < |f| - WORD && j - i < BASE && v != f[i] && w != f[j]
    ensures DecodeBytes(p, f[i := v][j := w] + rest).state == ChecksumError
  {
    PairVerdict(p, f, i, j, v, w, rest);
    NearbyPairDetected(f[WORD..|f| - WORD], i - WORD, j - WORD, v, w);
  }

  lemma TwoChanges(f: bytes, i: nat, j: nat, v: byte, w: byte)
    requires |f| >= 2 * WORD && WORD <= i < j < |f| - WORD
    ensures var g, n := f[i := v][j := w], |f| - WORD;
            && g[WORD..n] == f[WORD..n][i - WORD := v][j - WORD := w]
            && g[n..] == f[n..] && g[..WORD] == f[..WORD]
  {
  }

  // ---- The methods on a buffer -------------------------------------------

  method ReadWord(buffer: Buffer, at: nat) returns (v: int)
    requires buffer.Valid() && at + WORD <= buffer.Shape().Readable()
    ensures v == ToInt32(Get32(buffer.Contents()[at..at + WORD]))
  {
    var pos := buffer.readIndex + at;
    SliceOfSlice(buffer.data[..], buffer.readIndex, buffer.writeIndex, at, at + WORD);
    v := ToInt32(Get32(buffer.data[pos..pos + WORD]));
  }

  method Slice(buffer: Buffer, from: nat, to: nat) returns (s: bytes)
    requires buffer.Valid() && from <= to <= buffer.Shape().Readable()
    ensures s == buffer.Contents()[from..to]
  {
    SliceOfSlice(buffer.data[..], buffer.readIndex, buffer.writeIndex, from, to);
    s := buffer.data[buffer.readIndex + from..buffer.readIndex + to];
  }

  lemma SliceOfSlice(s: bytes, lo: nat, hi: nat, from: nat, to: nat)
    requires lo <= hi <= |s| && from <= to <= hi - lo
    ensures s[lo..hi][from..to] == s[lo + from..lo + to]
  {
    var t := s[lo..hi];
    forall k | 0 <= k < to - from
      ensures t[from..to][k] == s[lo + from..lo + to][k]
    {
      assert t[from + k] == s[lo + (from + k)];
    }
  }

  /** The part of `Decode` between the length tests and the final `retrieve`. */
  method CheckFrame<M>(p: Pool<M>, buffer: Buffer, len: nat) returns (state: DecodeState, msg: Option<M>)
    requires buffer.Valid() && MIN_LEN <= len && WORD + len <= buffer.Shape().Readable()
    ensures (state, msg) == JudgeFrame(p, buffer.Contents(), len)
  {
    var expected := ReadWord(buffer, len);
    var body := Slice(buffer, WORD, len);
    if ToInt32(Adler32(body)) != expected {
      return ChecksumError, None;
    }
    state, msg := ParseBody(p, buffer, len);
  }

  /** The part of `Decode` after the checksum test; it leaves the buffer alone. */
  method ParseBody<M>(p: Pool<M>, buffer: Buffer, len: nat) returns (state: DecodeState, msg: Option<M>)
    requires buffer.Valid() && MIN_LEN <= len && WORD + len <= buffer.Shape().Readable()
    ensures (state, msg) == DecodeBody(p, buffer.Contents()[WORD..len])
  {
    msg := None;
    ghost var s := buffer.Contents();
    var nameLen := ReadWord(buffer, WORD);
    SliceOfSlice(s, WORD, len, 0, WORD);
    if nameLen <= 0 || nameLen > len - WORD - WORD {
      return DecodeError, None;
    }
    var name := Slice(buffer, 2 * WORD, 2 * WORD + nameLen);
    SliceOfSlice(s, WORD, len, WORD, WORD + nameLen);
    if !p.known(name) {
      return InvalidName, None;
    }
    var payload := Slice(buffer, 2 * WORD + nameLen, len);
    SliceOfSlice(s, WORD, len, WORD + nameLen, len - WORD);
    msg := p.parse(name, payload);
    state := if msg.None? then DecodeError else Success;
  }

  /** Reads only readable bytes, and retrieves exactly what it consumed. */
  method Decode<M>(p: Pool<M>, buffer: Buffer) returns (state: DecodeState, msg: Option<M>)
    requires buffer.Valid()
    modifies buffer`readIndex, buffer`writeIndex
    ensures buffer.Valid()
    ensures var d := DecodeBytes(p, old(buffer.Contents()));
            && state == d.state && msg == d.msg
            && d.consumed <= |old(buffer.Contents())|
            && buffer.Contents() == old(buffer.Contents())[d.consumed..]
    ensures old(buffer.readIndex) >= CHEAP_PREPEND ==>
              CHEAP_PREPEND <= buffer.readIndex && buffer.writeIndex <= old(buffer.writeIndex)
  {
    msg := None;
    var readable := buffer.writeIndex - buffer.readIndex;
    if readable < WORD {
      return Incomplete, None;
    }
    var len := ReadWord(buffer, 0);
    if len < MIN_LEN || len > MAX_LEN {
      buffer.RetrieveAll();
      return DecodeError, None;
    }
    if readable < WORD + len {
      return Incomplete, None;
    }
    state, msg := CheckFrame(p, buffer, len);
    buffer.Retrieve(WORD + len);
  }

  /** Writes the frame behind the write cursor and publishes it, or publishes nothing. */
  method Encode<M>(p: Pool<M>, m: M, out: Buffer)
    requires out.Valid()
    requires WORD + TotalLen(p, m) <= INT32_MAX
    requires p.serialize(m).Some? ==> |p.serialize(m).value| == p.byteSize(m)
    requires out.Shape().RoomFor(WORD + TotalLen(p, m))
    modifies out, out.data
    ensures out.Valid() && (out.data == old(out.data) || fresh(out.data))
    ensures p.serialize(m).None? ==> out.Contents() == old(out.Contents())
    ensures p.serialize(m).None? ==> out.Shape() == old(out.Shape()).EnsureWritable(WORD + TotalLen(p, m))
    ensures p.serialize(m).Some? ==> out.Contents() == old(out.Contents()) + Frame(p, m)
    ensures p.serialize(m).Some? ==> out.Shape() == old(out.Shape()).Append(WORD + TotalLen(p, m))
    ensures old(out.readIndex) >= CHEAP_PREPEND ==> out.readIndex >= CHEAP_PREPEND
  {
    var name, total := p.nameOf(m), TotalLen(p, m);
    out.EnsureWritable(total + WORD);
    WriteFrame(out, Put32(total), Put32(|name|), name, p.byteSize(m), p.serialize(m));
  }

  /** `Encode` once its sizes are known and room has been made. */
  method WriteFrame(out: Buffer, header: bytes, nameField: bytes, name: bytes,
                    payloadSize: nat, payload: Option<bytes>)
    requires out.Valid() && |header| == |nameField| == WORD
    requires 3 * WORD + |name| + payloadSize <= out.Shape().Writable()
    requires payload.Some? ==> |payload.value| == payloadSize
    modifies out`writeIndex, out.data
    ensures out.Valid()
    ensures payload.None? ==> out.Shape() == old(out.Shape()) && out.Contents() == old(out.Contents())
    ensures payload.Some? ==>
              var body := nameField + name + payload.value;
              && out.Shape() == old(out.Shape()).(write := old(out.writeIndex) + 2 * WORD + |body|)
              && out.Contents() == old(out.Contents()) + (header + body + Put32(Adler32(body)))
  {
    var start := out.writeIndex;
    var pos := PutHead(out, start, header, nameField, name);
    ghost var head := header + nameField + name;
    if payload.None? {
      return;
    }
    pos := Put(out, start, pos, payload.value, head);
    var body := out.data[start + WORD..start + pos];
    BodyOfHead(out.data[start..start + pos], header, nameField, name, payload.value);
    SliceOfSlice(out.data[..], start, start + pos, WORD, pos);
    pos := Put(out, start, pos, Put32(Adler32(body)), head + payload.value);
    out.HasWritten(pos);
  }

  lemma BodyOfHead(written: bytes, header: bytes, nameField: bytes, name: bytes, payload: bytes)
    requires written == header + nameField + name + payload && |header| == WORD
    ensures written == header + (nameField + name + payload)
    ensures written[WORD..] == nameField + name + payload
  {
  }

  /** The first three copies of `Encode`. */
  method PutHead(out: Buffer, start: nat, header: bytes, nameField: bytes, name: bytes) returns (pos: nat)
    requires out.Valid() && start == out.writeIndex && |header| == |nameField| == WORD
    requires start + 2 * WORD + |name| <= out.data.Length
    modifies out.data
    ensures pos == 2 * WORD + |name|
    ensures out.data[start..start + pos] == header + nameField + name
    ensures out.Contents() == old(out.Contents())
  {
    pos := Put(out, start, 0, header, []);
    pos := Put(out, start, pos, nameField, header);
    pos := Put(out, start, pos, name, header + nameField);
  }

  /** One `memcpy` of `Encode` at its moving position; `done` is what was written before it. */
  method Put(out: Buffer, start: nat, pos: nat, piece: bytes, ghost done: bytes) returns (next: nat)
    requires out.Valid() && start == out.writeIndex
    requires start + pos + |piece| <= out.data.Length && pos == |done|
    requires out.data[start..start + pos] == done
    modifies out.data
    ensures next == pos + |piece|
    ensures out.data[start..start + next] == done + piece
    ensures out.Contents() == old(out.Contents())
  {
    ghost var was := out.data[..];
    out.Copy(piece, start + pos);
    next := pos + |piece|;
    ghost var now := out.data[..];
    assert now[..start + pos] == was[..start + pos];
    SliceOfSlice(now, 0, start + pos, start, start + pos);
    SliceOfSlice(was, 0, start + pos, start, start + pos);
    SliceOfSlice(now, 0, start + pos, out.readIndex, start);
    SliceOfSlice(was, 0, start + pos, out.readIndex, start);
    assert now[start..start + next] == now[start..start + pos] + now[start + pos..start + next];
  }
}
