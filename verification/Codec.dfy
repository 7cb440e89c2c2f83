/** Length-prefixed framing of wire messages over a byte stream. */
module Codec {
  import opened Common

  const MAX_MESSAGE_SIZE: nat := 16 * 1024 * 1024

  /** The payload codec, kept abstract: `write` may fail, and `read` rejects what is not a message. */
  datatype Payload<!M> = Payload(write: M -> Option<Bytes>, read: Bytes -> Option<M>)

  datatype Error = TooLarge(len: nat) | InvalidJson | EncodeFailed

  /** Outcome of one decode call: `Ok(None)`, `Ok(Some(m))` or an error. */
  datatype Decoded<+M> = Incomplete | Message(msg: M) | Failed(error: Error)

  // ---- big-endian lengths ----

  function PutU32(n: nat): Bytes
    requires n < 0x1_0000_0000
  {
    [n / 0x100_0000, n / 0x1_0000 % 256, n / 256 % 256, n % 256]
  }

  function GetU32(b: Bytes): nat
    requires |b| == 4
  {
    var w: nat, x: nat, y: nat, z: nat := b[0], b[1], b[2], b[3];
    ((w * 256 + x) * 256 + y) * 256 + z
  }

  lemma {:induction false} U32RoundTrip(n: nat)
    requires n < 0x1_0000_0000
    ensures GetU32(PutU32(n)) == n
  {
    var a, b, c := n / 256, n / 0x1_0000, n / 0x100_0000;
    assert b == a / 256 && c == b / 256;
  }

  // ---- specification ----

  /** One decode call: what is left in the buffer and what comes out. */
  function Decode<M>(p: Payload<M>, src: Bytes): (Bytes, Decoded<M>) {
    if |src| < 4 then (src, Incomplete)
    else
      var len := GetU32(src[..4]);
      if len > MAX_MESSAGE_SIZE then (src, Failed(TooLarge(len)))
      else if |src| < 4 + len then (src, Incomplete)
      else
        var msg := p.read(src[4..4 + len]);
        (src[4 + len..], if msg.None? then Failed(InvalidJson) else Message(msg.value))
  }

  predicate Encodable<M>(p: Payload<M>, m: M) {
    p.write(m).Some? && |p.write(m).value| <= MAX_MESSAGE_SIZE
  }

  function Frame<M>(p: Payload<M>, m: M): Bytes
    requires Encodable(p, m)
  {
    PutU32(|p.write(m).value|) + p.write(m).value
  }

  /** One decode call, told from the bytes: fewer than four, or fewer than the four announce, and nothing is
      read; more than 16 MiB announced is an error that reads nothing; otherwise the announced bytes go to
      the payload codec and the rest stays. */
  lemma {:induction false} DecodeMeans<M>(p: Payload<M>, src: Bytes)
    ensures |src| < 4 ==> Decode(p, src) == (src, Incomplete)
    ensures |src| >= 4 ==>
              var a: nat, b: nat, c: nat, d: nat := src[0], src[1], src[2], src[3];
              var len := a * 0x100_0000 + b * 0x1_0000 + c * 0x100 + d;
              && (len > 16_777_216 ==> Decode(p, src) == (src, Failed(TooLarge(len))))
              && (len <= 16_777_216 && |src| < 4 + len ==> Decode(p, src) == (src, Incomplete))
              && (len <= 16_777_216 && |src| >= 4 + len ==>
                    var msg := p.read(src[4..4 + len]);
                    && Decode(p, src).0 == src[4 + len..]
                    && Decode(p, src).1 == if msg.None? then Failed(InvalidJson) else Message(msg.value))
  {
  }

  /** A frame is the payload's length in four bytes, the most significant first, and the payload. */
  lemma {:induction false} FrameMeans<M>(p: Payload<M>, m: M)
    requires Encodable(p, m)
    ensures var f, payload := Frame(p, m), p.write(m).value;
            |f| == 4 + |payload| && f[4..] == payload && |payload| <= 16_777_216
    ensures var f, payload := Frame(p, m), p.write(m).value;
            var a: nat, b: nat, c: nat, d: nat := f[0], f[1], f[2], f[3];
            |payload| == a * 0x100_0000 + b * 0x1_0000 + c * 0x100 + d
  {
    U32RoundTrip(|p.write(m).value|);
  }

  // ---- implementation ----

  class Buffer {
    var bytes: Bytes

    constructor ()
      ensures bytes == []
    {
      bytes := [];
    }

    method Advance(n: nat)
      requires n <= |bytes|
      modifies this
      ensures bytes == old(bytes)[n..]
    {
      bytes := bytes[n..];
    }

    method SplitTo(n: nat) returns (front: Bytes)
      requires n <= |bytes|
      modifies this
      ensures front == old(bytes)[..n] && bytes == old(bytes)[n..]
    {
      front := bytes[..n];
      bytes := bytes[n..];
    }
  }

  method DecodeFrom<M>(p: Payload<M>, src: Buffer) returns (r: Decoded<M>)
    modifies src
    ensures (src.bytes, r) == Decode(p, old(src.bytes))
  {
    if |src.bytes| < 4 {
      return Incomplete;
    }
    var len := GetU32(src.bytes[..4]);
    if len > MAX_MESSAGE_SIZE {
      return Failed(TooLarge(len));
    }
    if |src.bytes| < 4 + len {
      return Incomplete;
    }
    src.Advance(4);
    var payload := src.SplitTo(len);
    assert payload == old(src.bytes)[4..4 + len];
    var msg := p.read(payload);
    if msg.None? {
      return Failed(InvalidJson);
    }
    return Message(msg.value);
  }

  method EncodeTo<M>(p: Payload<M>, item: M, dst: Buffer) returns (error: Option<Error>)
    modifies dst
    ensures error.None? <==> Encodable(p, item)
    ensures Encodable(p, item) ==> dst.bytes == old(dst.bytes) + Frame(p, item)
    ensures error.Some? ==> dst.bytes == old(dst.bytes)
    ensures p.write(item).None? ==> error == Some(EncodeFailed)
    ensures p.write(item).Some? && |p.write(item).value| > 16_777_216 ==> error == Some(TooLarge(|p.write(item).value|))
  {
    var payload := p.write(item);
    if payload.None? {
      return Some(EncodeFailed);
    }
    if |payload.value| > MAX_MESSAGE_SIZE {
      return Some(TooLarge(|payload.value|));
    }
    dst.bytes := dst.bytes + PutU32(|payload.value|);
    dst.bytes := dst.bytes + payload.value;
    return None;
  }

  // ---- reading a stream ----

  /** A reader's progress: messages so far, unread bytes, and the error that stopped it. */
  datatype Stream<+M> = Stream(msgs: seq<M>, rest: Bytes, error: Option<Error>)

  /** Decoding until the buffer holds no whole frame or an error stops the reader. */
  function Drain<M>(p: Payload<M>, src: Bytes): Stream<M>
    decreases |src|
  {
    var (rest, r) := Decode(p, src);
    match r
    case Incomplete => Stream([], rest, None)
    case Failed(e) => Stream([], rest, Some(e))
    case Message(m) =>
      var next := Drain(p, rest);
      next.(msgs := [m] + next.msgs)
  }

  function Feed<M>(p: Payload<M>, s: Stream<M>, chunk: Bytes): Stream<M> {
    if s.error.Some? then s
    else
      var next := Drain(p, s.rest + chunk);
      next.(msgs := s.msgs + next.msgs)
  }

  function FeedAll<M>(p: Payload<M>, chunks: seq<Bytes>): Stream<M> {
    if chunks == [] then Stream([], [], None)
    else Feed(p, FeedAll(p, chunks[..|chunks| - 1]), chunks[|chunks| - 1])
  }

  function Frames<M>(p: Payload<M>, msgs: seq<M>): Bytes
    requires forall i :: 0 <= i < |msgs| ==> Encodable(p, msgs[i])
  {
    if msgs == [] then [] else Frame(p, msgs[0]) + Frames(p, msgs[1..])
  }

  // ---- properties ----

  /** An incomplete frame consumes nothing; a frame or an error is the same whatever bytes follow. */
  lemma {:induction false} DecodeExtends<M>(p: Payload<M>, a: Bytes, b: Bytes)
    ensures Decode(p, a).1.Incomplete? ==> Decode(p, a).0 == a
    ensures !Decode(p, a).1.Incomplete? ==> Decode(p, a + b) == (Decode(p, a).0 + b, Decode(p, a).1)
  {
    if |a| >= 4 {
      assert (a + b)[..4] == a[..4];
      var len := GetU32(a[..4]);
      if len <= MAX_MESSAGE_SIZE && |a| >= 4 + len {
        assert (a + b)[4..4 + len] == a[4..4 + len];
        assert (a + b)[4 + len..] == a[4 + len..] + b;
      }
    }
  }

  /** Draining a longer buffer first gives what the shorter one gives. */
  lemma {:induction false} DrainExtends<M>(p: Payload<M>, a: Bytes, b: Bytes)
    ensures Continues(p, Drain(p, a), b, Drain(p, a + b))
    decreases |a|
  {
    DecodeExtends(p, a, b);
    var (rest, r) := Decode(p, a);
    match r
    case Message(m) =>
      DrainExtends(p, rest, b);
      ContinuesAfter(p, m, Drain(p, rest), b, Drain(p, rest + b));
    case Failed(e) =>
    case Incomplete =>
      ContinuesFromStart(p, a, b);
  }

  lemma {:induction false} ContinuesAfter<M>(p: Payload<M>, m: M, s: Stream<M>, b: Bytes, t: Stream<M>)
    requires Continues(p, s, b, t)
    ensures Continues(p, s.(msgs := [m] + s.msgs), b, t.(msgs := [m] + t.msgs))
  {
    var more := Drain(p, s.rest + b).msgs;
    assert [m] + (s.msgs + more) == ([m] + s.msgs) + more;
  }

  lemma {:induction false} ContinuesFromStart<M>(p: Payload<M>, a: Bytes, b: Bytes)
    ensures Continues(p, Stream([], a, None), b, Drain(p, a + b))
  {
    assert [] + Drain(p, a + b).msgs == Drain(p, a + b).msgs;
  }

  /** `t` is where a reader at `s` gets with the further bytes `b`; after an error it stays. */
  predicate Continues<M(==)>(p: Payload<M>, s: Stream<M>, b: Bytes, t: Stream<M>) {
    if s.error.Some? then t.msgs == s.msgs && t.error == s.error
    else t == Drain(p, s.rest + b).(msgs := s.msgs + Drain(p, s.rest + b).msgs)
  }

  /** Chunk boundaries do not matter, for any bytes: the same messages, the same error, the same rest. */
  lemma {:induction false} ChunkingIrrelevant<M>(p: Payload<M>, chunks: seq<Bytes>)
    ensures var s, t := FeedAll(p, chunks), Drain(p, Concat(chunks));
            s.msgs == t.msgs && s.error == t.error && (s.error.None? ==> s.rest == t.rest)
  {
    if chunks != [] {
      var init, chunk := chunks[..|chunks| - 1], chunks[|chunks| - 1];
      ChunkingIrrelevant(p, init);
      DrainExtends(p, Concat(init), chunk);
    }
  }

  lemma {:induction false} DrainFrames<M>(p: Payload<M>, msgs: seq<M>)
    requires forall i :: 0 <= i < |msgs| ==> Encodable(p, msgs[i]) && p.read(p.write(msgs[i]).value) == Some(msgs[i])
    ensures Drain(p, Frames(p, msgs)) == Stream(msgs, [], None)
  {
    if msgs != [] {
      var payload := p.write(msgs[0]).value;
      var src := Frames(p, msgs);
      U32RoundTrip(|payload|);
      assert src[..4] == PutU32(|payload|);
      assert src[4..4 + |payload|] == payload;
      assert src[4 + |payload|..] == Frames(p, msgs[1..]);
      DrainFrames(p, msgs[1..]);
    }
  }

  lemma {:induction false} Associative(a: Bytes, b: Bytes, c: Bytes)
    ensures a + (b + c) == (a + b) + c
  {
  }

  /** Encoding one message after another builds the frames in order. */
  lemma {:induction false} FramesGrow<M>(p: Payload<M>, msgs: seq<M>, m: M)
    requires Encodable(p, m) && forall i :: 0 <= i < |msgs| ==> Encodable(p, msgs[i])
    ensures Frames(p, msgs + [m]) == Frames(p, msgs) + Frame(p, m)
  {
    if msgs == [] {
      assert [] + [m] == [m] && [m][1..] == [];
      assert Frame(p, m) + [] == Frame(p, m) && [] + Frame(p, m) == Frame(p, m);
    } else {
      FramesGrow(p, msgs[1..], m);
      assert (msgs + [m])[1..] == msgs[1..] + [m];
      Associative(Frame(p, msgs[0]), Frames(p, msgs[1..]), Frame(p, m));
    }
  }

  /** Streaming decode undoes encode, however the frames are cut into chunks. */
  lemma {:induction false} StreamRoundTrip<M>(p: Payload<M>, msgs: seq<M>, chunks: seq<Bytes>)
    requires forall i :: 0 <= i < |msgs| ==> Encodable(p, msgs[i]) && p.read(p.write(msgs[i]).value) == Some(msgs[i])
    requires Concat(chunks) == Frames(p, msgs)
    ensures FeedAll(p, chunks) == Stream(msgs, [], None)
  {
    ChunkingIrrelevant(p, chunks);
    DrainFrames(p, msgs);
  }

  /** At any earlier moment the reader has a prefix of the messages and no error. */
  lemma {:induction false} PartialStream<M>(p: Payload<M>, msgs: seq<M>, chunks: seq<Bytes>, missing: Bytes)
    requires forall i :: 0 <= i < |msgs| ==> Encodable(p, msgs[i]) && p.read(p.write(msgs[i]).value) == Some(msgs[i])
    requires Concat(chunks) + missing == Frames(p, msgs)
    ensures FeedAll(p, chunks).error.None? && FeedAll(p, chunks).msgs <= msgs
  {
    ChunkingIrrelevant(p, chunks);
    DrainFrames(p, msgs);
    DrainExtends(p, Concat(chunks), missing);
  }
}
