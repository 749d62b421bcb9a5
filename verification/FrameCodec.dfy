/**
 Length-prefixed framing over a byte stream
 (crates/dynrunner-protocol-primary-secondary/src/codec.rs) and the receive loop
 that uses it (crates/dynrunner-transport-quic/src/transport.rs).

 The message body's own encoding is an arbitrary pair of functions.
 */
module FrameCodec {
  import opened Wrappers
  import LexOrder

  type Byte = b: nat | b < 256
  type Bytes = seq<Byte>

  const U32: nat := 0x1_0000_0000

  /** How message bodies become bytes and back. */
  datatype BodyCodec<!M> = BodyCodec(encode: M -> Bytes, decode: Bytes -> Result<M, string>)

  /** What is encoded decodes to itself. */
  ghost predicate Invertible<M(!new)>(c: BodyCodec<M>) {
    forall m :: c.decode(c.encode(m)) == Ok(m)
  }

  function ToBigEndian(n: nat): (r: Bytes)
    requires n < U32
    ensures |r| == 4
  {
    [n / 0x100_0000, n / 0x1_0000 % 256, n / 256 % 256, n % 256]
  }

  function FromBigEndian(b: Bytes): nat
    requires |b| >= 4
  {
    b[0] as nat * 0x100_0000 + b[1] as nat * 0x1_0000 + b[2] as nat * 256 + b[3] as nat
  }

  lemma LengthRoundTrips(n: nat, rest: Bytes)
    requires n < U32
    ensures FromBigEndian(ToBigEndian(n) + rest) == n
  {
    var b := ToBigEndian(n) + rest;
    assert b[0] == n / 0x100_0000 && b[1] == n / 0x1_0000 % 256 && b[2] == n / 256 % 256 && b[3] == n % 256;
    assert n == n / 256 * 256 + n % 256;
    assert n / 256 == n / 0x1_0000 * 256 + n / 256 % 256;
    assert n / 0x1_0000 == n / 0x100_0000 * 256 + n / 0x1_0000 % 256;
  }

  /** The most significant byte comes first: four bytes compare as the numbers do.  There
      is only one way to lay out the numbers below 2^32 like that. */
  lemma BigEndianKeepsOrder(m: nat, n: nat)
    requires m < U32 && n < U32
    ensures m < n <==> LexOrder.Less(ToBigEndian(m), ToBigEndian(n))
  {
    var a, b := ToBigEndian(m), ToBigEndian(n);
    LexOrder.From(a, b, 0);
    LexOrder.From(a, b, 1);
    LexOrder.From(a, b, 2);
    LexOrder.From(a, b, 3);
    assert a[0..] == a && b[0..] == b && a[4..] == [] && b[4..] == [];
    LengthRoundTrips(m, []);
    LengthRoundTrips(n, []);
    assert a + [] == a && b + [] == b;
  }

  lemma PrefixRoundTrips(b: Bytes)
    requires |b| >= 4
    ensures FromBigEndian(b) < U32 && ToBigEndian(FromBigEndian(b)) == b[..4]
  {
    var n := FromBigEndian(b);
    var high := b[0] as nat * 0x1_0000 + b[1] as nat * 256 + b[2] as nat;
    assert n == high * 256 + b[3] as nat;
    assert n / 256 == high && n % 256 == b[3] as nat;
    var higher := b[0] as nat * 256 + b[1] as nat;
    assert high == higher * 256 + b[2] as nat;
    assert high / 256 == higher && high % 256 == b[2] as nat;
    assert higher / 256 == b[0] as nat && higher % 256 == b[1] as nat;
    assert n / 0x1_0000 == n / 256 / 256 && n / 0x100_0000 == n / 256 / 256 / 256;
  }

  /** The length is cast to 32 bits, so a larger body gets a wrong prefix. */
  function Serialize<M>(c: BodyCodec<M>, m: M): Bytes {
    var body := c.encode(m);
    ToBigEndian(|body| % U32) + body
  }

  datatype Frame<M> = Frame(message: M, consumed: nat)

  /** One frame from the front of the buffer, `None` when it is not all there. */
  function DecodeFrame<M>(c: BodyCodec<M>, buf: Bytes): Result<Option<Frame<M>>, string> {
    if |buf| < 4 then Ok(None)
    else
      var len := FromBigEndian(buf);
      if |buf| < 4 + len then Ok(None)
      else match c.decode(buf[4..4 + len])
        case Err(e) => Err(e)
        case Ok(m) => Ok(Some(Frame(m, 4 + len)))
  }

  /** Decoding gives a message back, consuming exactly its frame, if and only if
      its body fits the 32-bit prefix. */
  lemma FrameRoundTripsExactly<M(!new)>(c: BodyCodec<M>, m: M, rest: Bytes)
    requires Invertible(c)
    ensures DecodeFrame(c, Serialize(c, m) + rest) == Ok(Some(Frame(m, |Serialize(c, m)|)))
            <==> |c.encode(m)| < U32
  {
    var body := c.encode(m);
    var buf := Serialize(c, m) + rest;
    assert buf == ToBigEndian(|body| % U32) + (body + rest);
    LengthRoundTrips(|body| % U32, body + rest);
    if |body| < U32 {
      assert buf[4..4 + |body|] == body;
    }
  }

  /** A decided outcome, message or error, is not changed by bytes that follow. */
  lemma DecisionIsStable<M>(c: BodyCodec<M>, buf: Bytes, more: Bytes)
    requires DecodeFrame(c, buf) != Ok(None)
    ensures DecodeFrame(c, buf + more) == DecodeFrame(c, buf)
  {
    var len := FromBigEndian(buf);
    assert FromBigEndian(buf + more) == len;
    assert (buf + more)[4..4 + len] == buf[4..4 + len];
  }

  // ---------------------------------------------------------------------
  // The receive loop
  // ---------------------------------------------------------------------

  /** The transport's own limit is 96 MiB; everything below holds for any limit, and a
      limit of 2^32 or more is no limit at all. */
  predicate OversizeAnnounced(buf: Bytes, limit: nat) {
    |buf| >= 4 && FromBigEndian(buf) > limit
  }

  /** A connection: bytes not yet decoded, messages delivered, and whether a bad
      frame has dropped it. */
  datatype Receiver<M> = Receiver(buf: Bytes, delivered: seq<M>, dropped: bool)

  /** Everything the buffer holds: deliver whole frames, stop at a partial one,
      drop the connection at an oversize or corrupt one. */
  function Drain<M>(c: BodyCodec<M>, limit: nat, r: Receiver<M>): Receiver<M>
    decreases |r.buf|
  {
    if r.dropped then r
    else if OversizeAnnounced(r.buf, limit) then r.(dropped := true)
    else match DecodeFrame(c, r.buf)
      case Ok(None) => r
      case Err(_) => r.(dropped := true)
      case Ok(Some(Frame(m, consumed))) => Drain(c, limit, Receiver(r.buf[consumed..], r.delivered + [m], false))
  }

  /** The bytes of one read arrive. */
  function Receive<M>(c: BodyCodec<M>, limit: nat, r: Receiver<M>, chunk: Bytes): Receiver<M> {
    if r.dropped then r else Drain(c, limit, r.(buf := r.buf + chunk))
  }

  function ReceiveAll<M>(c: BodyCodec<M>, limit: nat, r: Receiver<M>, chunks: seq<Bytes>): Receiver<M> {
    if chunks == [] then r else Receive(c, limit, ReceiveAll(c, limit, r, chunks[..|chunks| - 1]), chunks[|chunks| - 1])
  }

  /** The loop over a buffer that reads in chunks delivers what draining at once does. */
  method ReceiveLoop<M>(c: BodyCodec<M>, limit: nat, chunks: seq<Bytes>) returns (r: Receiver<M>)
    ensures r == ReceiveAll(c, limit, Receiver([], [], false), chunks)
  {
    r := Receiver([], [], false);
    for i := 0 to |chunks|
      invariant r == ReceiveAll(c, limit, Receiver([], [], false), chunks[..i])
    {
      assert chunks[..i + 1][..i] == chunks[..i];
      if !r.dropped {
        var buf, delivered := r.buf + chunks[i], r.delivered;
        var dropped, reading := false, true;
        while reading
          invariant !dropped || !reading
          invariant Receive(c, limit, r, chunks[i]) ==
                    if reading then Drain(c, limit, Receiver(buf, delivered, false)) else Receiver(buf, delivered, dropped)
          decreases reading, |buf|
        {
          if OversizeAnnounced(buf, limit) {
            dropped, reading := true, false;
          } else {
            match DecodeFrame(c, buf)
            case Ok(None) => reading := false;
            case Err(_) => dropped, reading := true, false;
            case Ok(Some(frame)) => buf, delivered := buf[frame.consumed..], delivered + [frame.message];
          }
        }
        r := Receiver(buf, delivered, dropped);
      }
    }
    assert chunks[..|chunks|] == chunks;
  }

  // ---------------------------------------------------------------------
  // Chunking is invisible
  // ---------------------------------------------------------------------

  /** What a receiver shows the rest of the program, and what it still needs. */
  ghost predicate SameView<M>(a: Receiver<M>, b: Receiver<M>) {
    && a.delivered == b.delivered
    && a.dropped == b.dropped
    && (!a.dropped ==> a.buf == b.buf)
  }

  /** Draining early and then receiving more is draining everything at once. */
  lemma {:induction false} DrainEarly<M>(c: BodyCodec<M>, limit: nat, r: Receiver<M>, more: Bytes)
    requires !r.dropped
    ensures SameView(Receive(c, limit, Drain(c, limit, r), more), Drain(c, limit, r.(buf := r.buf + more)))
    decreases |r.buf|
  {
    var all := r.buf + more;
    if |r.buf| >= 4 {
      assert FromBigEndian(all) == FromBigEndian(r.buf);
    }
    if OversizeAnnounced(r.buf, limit) {
      assert OversizeAnnounced(all, limit);
    } else if DecodeFrame(c, r.buf) != Ok(None) {
      DecisionIsStable(c, r.buf, more);
      assert !OversizeAnnounced(all, limit);
      match DecodeFrame(c, r.buf) {
        case Err(_) =>
        case Ok(Some(frame)) =>
          assert all[frame.consumed..] == r.buf[frame.consumed..] + more;
          DrainEarly(c, limit, Receiver(r.buf[frame.consumed..], r.delivered + [frame.message], false), more);
      }
    }
  }

  function Concat(chunks: seq<Bytes>): Bytes {
    if chunks == [] then [] else Concat(chunks[..|chunks| - 1]) + chunks[|chunks| - 1]
  }

  lemma SameViewReceives<M>(c: BodyCodec<M>, limit: nat, a: Receiver<M>, b: Receiver<M>, chunk: Bytes)
    requires SameView(a, b)
    ensures SameView(Receive(c, limit, a, chunk), Receive(c, limit, b, chunk))
  {
  }

  /** For every byte stream, well formed or not, the messages delivered, the
      decision to drop the connection and the bytes held back depend only on the
      bytes, never on how the network cut them into reads. */
  lemma {:induction false} ChunkingIsInvisible<M>(c: BodyCodec<M>, limit: nat, chunks: seq<Bytes>)
    ensures SameView(ReceiveAll(c, limit, Receiver([], [], false), chunks),
                     Drain(c, limit, Receiver(Concat(chunks), [], false)))
  {
    var start: Receiver<M> := Receiver([], [], false);
    if chunks == [] {
      assert DecodeFrame(c, []) == Ok(None);
    } else {
      var front, last := chunks[..|chunks| - 1], chunks[|chunks| - 1];
      ChunkingIsInvisible(c, limit, front);
      var whole := Receiver(Concat(front), [], false);
      SameViewReceives(c, limit, ReceiveAll(c, limit, start, front), Drain(c, limit, whole), last);
      DrainEarly(c, limit, whole, last);
    }
  }

  function SerializeAll<M>(c: BodyCodec<M>, ms: seq<M>): Bytes {
    if ms == [] then [] else Serialize(c, ms[0]) + SerializeAll(c, ms[1..])
  }

  ghost predicate Fits<M>(c: BodyCodec<M>, limit: nat, m: M) {
    |c.encode(m)| < U32 && |c.encode(m)| <= limit
  }

  ghost predicate DrainsTo<M>(
    c: BodyCodec<M>, limit: nat, buf: Bytes, before: seq<M>, tail: Bytes, delivered: seq<M>)
  {
    Drain(c, limit, Receiver(buf, before, false)) == Receiver(tail, delivered, false)
  }

  lemma OneMoreDrains<M(!new)>(
    c: BodyCodec<M>, limit: nat, m: M, rest: Bytes, before: seq<M>, tail: Bytes, delivered: seq<M>)
    requires Invertible(c) && Fits(c, limit, m) && DrainsTo(c, limit, rest, before + [m], tail, delivered)
    ensures DrainsTo(c, limit, Serialize(c, m) + rest, before, tail, delivered)
  {
    DrainOne(c, limit, m, rest, before);
  }

  lemma {:induction false} StreamDrains<M(!new)>(
    c: BodyCodec<M>, limit: nat, ms: seq<M>, tail: Bytes, before: seq<M>)
    requires Invertible(c) && forall m :: m in ms ==> Fits(c, limit, m)
    requires DrainsTo<M>(c, limit, tail, before + ms, tail, before + ms)
    ensures DrainsTo(c, limit, SerializeAll(c, ms) + tail, before, tail, before + ms)
    decreases |ms|
  {
    if ms == [] {
      assert SerializeAll(c, ms) + tail == tail && before + ms == before;
    } else {
      assert before + [ms[0]] + ms[1..] == before + ms;
      StreamDrains(c, limit, ms[1..], tail, before + [ms[0]]);
      SplitStream(c, ms, tail);
      OneMoreDrains(c, limit, ms[0], SerializeAll(c, ms[1..]) + tail, before, tail, before + ms);
    }
  }

  /** A stream of serialized messages followed by an unfinished frame is delivered
      message by message, and the unfinished tail is kept. */
  lemma StreamRoundTrips<M(!new)>(c: BodyCodec<M>, limit: nat, ms: seq<M>, next: M, cut: nat, before: seq<M>)
    requires Invertible(c) && forall m :: m in ms ==> Fits(c, limit, m)
    requires Fits(c, limit, next) && cut < |Serialize(c, next)|
    ensures Drain(c, limit, Receiver(SerializeAll(c, ms) + Serialize(c, next)[..cut], before, false))
         == Receiver(Serialize(c, next)[..cut], before + ms, false)
  {
    PartialFrameWaits(c, limit, next, cut);
    StreamDrains(c, limit, ms, Serialize(c, next)[..cut], before);
  }

  /** A body behind its length. */
  function FrameOf(body: Bytes): Bytes
    requires |body| < U32
  {
    ToBigEndian(|body|) + body
  }

  ghost predicate Good<M>(c: BodyCodec<M>, limit: nat, body: Bytes) {
    |body| < U32 && |body| <= limit && c.decode(body).Ok?
  }

  ghost predicate AllGood<M>(c: BodyCodec<M>, limit: nat, bodies: seq<Bytes>) {
    forall i :: 0 <= i < |bodies| ==> Good(c, limit, bodies[i])
  }

  ghost function Framed<M>(c: BodyCodec<M>, limit: nat, bodies: seq<Bytes>): Bytes
    requires AllGood(c, limit, bodies)
  {
    if bodies == [] then [] else FrameOf(bodies[0]) + Framed(c, limit, bodies[1..])
  }

  ghost function Messages<M>(c: BodyCodec<M>, limit: nat, bodies: seq<Bytes>): seq<M>
    requires AllGood(c, limit, bodies)
  {
    seq(|bodies|, i requires 0 <= i < |bodies| => c.decode(bodies[i]).value)
  }

  /** A length above the limit stands in front. */
  predicate TooLong(limit: nat, rest: Bytes) {
    |rest| >= 4 && FromBigEndian(rest) > limit
  }

  /** Less than a length stands in front, or a length within the limit and less than the
      body it announces. */
  predicate Unfinished(limit: nat, rest: Bytes) {
    |rest| < 4 || (FromBigEndian(rest) <= limit && |rest| < 4 + FromBigEndian(rest))
  }

  /** A whole frame within the limit stands in front and does not decode. */
  predicate Corrupt<M>(c: BodyCodec<M>, limit: nat, rest: Bytes) {
    !TooLong(limit, rest) && !Unfinished(limit, rest) && c.decode(rest[4..4 + FromBigEndian(rest)]).Err?
  }

  lemma GoodFrameInFront<M>(c: BodyCodec<M>, limit: nat, body: Bytes, more: seq<Bytes>)
    requires Good(c, limit, body) && AllGood(c, limit, more)
    ensures AllGood(c, limit, [body] + more)
    ensures Framed(c, limit, [body] + more) == FrameOf(body) + Framed(c, limit, more)
    ensures Messages(c, limit, [body] + more) == [c.decode(body).value] + Messages(c, limit, more)
  {
    assert ([body] + more)[1..] == more;
  }

  /** Receiver `r` has delivered the good frames of `buf` in order and stopped at `rest`: an
      unfinished frame is kept, one too long or corrupt has dropped the connection. */
  ghost predicate Explains<M>(
    c: BodyCodec<M>, limit: nat, buf: Bytes, before: seq<M>, bodies: seq<Bytes>, rest: Bytes, r: Receiver<M>)
  {
    && AllGood(c, limit, bodies) && buf == Framed(c, limit, bodies) + rest
    && r.delivered == before + Messages(c, limit, bodies) && r.buf == rest
    && (r.dropped <==> TooLong(limit, rest) || Corrupt(c, limit, rest))
    && (!r.dropped <==> Unfinished(limit, rest))
  }

  /** Every buffer is good frames and one such ending, and drains accordingly. */
  lemma {:induction false} EveryBufferExplained<M>(c: BodyCodec<M>, limit: nat, buf: Bytes, before: seq<M>)
    returns (bodies: seq<Bytes>, rest: Bytes)
    ensures Explains(c, limit, buf, before, bodies, rest, Drain(c, limit, Receiver(buf, before, false)))
    decreases |buf|
  {
    if TooLong(limit, buf) || Unfinished(limit, buf) || Corrupt(c, limit, buf) {
      bodies, rest := [], buf;
      StopsAtOnce(c, limit, buf, before);
    } else {
      var body, behind := FirstFrame(buf);
      var m := c.decode(body).value;
      DrainStep(c, limit, buf, before, Frame(m, 4 + |body|));
      var more;
      more, rest := EveryBufferExplained(c, limit, behind, before + [m]);
      bodies := [body] + more;
      ExplainsOn(c, limit, buf, before, body, behind, more, rest, Drain(c, limit, Receiver(behind, before + [m], false)));
    }
  }

  lemma StopsAtOnce<M>(c: BodyCodec<M>, limit: nat, buf: Bytes, before: seq<M>)
    requires TooLong(limit, buf) || Unfinished(limit, buf) || Corrupt(c, limit, buf)
    ensures Explains(c, limit, buf, before, [], buf, Drain(c, limit, Receiver(buf, before, false)))
  {
    var r := Drain(c, limit, Receiver(buf, before, false));
    assert r == Receiver(buf, before, !Unfinished(limit, buf)) by {
      if Unfinished(limit, buf) { assert DecodeFrame(c, buf) == Ok(None); }
    }
    assert Framed(c, limit, []) + buf == buf;
    assert before + Messages(c, limit, []) == before;
  }

  lemma ExplainsOn<M>(
    c: BodyCodec<M>, limit: nat, buf: Bytes, before: seq<M>, body: Bytes, behind: Bytes, more: seq<Bytes>, rest: Bytes,
    r: Receiver<M>)
    requires Good(c, limit, body) && buf == FrameOf(body) + behind
    requires Explains(c, limit, behind, before + [c.decode(body).value], more, rest, r)
    ensures Explains(c, limit, buf, before, [body] + more, rest, r)
  {
    GoodFrameInFront(c, limit, body, more);
    var m := c.decode(body).value;
    assert before + [m] + Messages(c, limit, more) == before + ([m] + Messages(c, limit, more));
    assert FrameOf(body) + (Framed(c, limit, more) + rest) == (FrameOf(body) + Framed(c, limit, more)) + rest;
  }

  /** A whole frame, taken off. */
  lemma FirstFrame(buf: Bytes) returns (body: Bytes, behind: Bytes)
    requires |buf| >= 4 && |buf| >= 4 + FromBigEndian(buf)
    ensures |body| == FromBigEndian(buf) < U32 && body == buf[4..4 + |body|] && behind == buf[4 + |body|..]
    ensures buf == FrameOf(body) + behind
  {
    PrefixRoundTrips(buf);
    body, behind := buf[4..4 + FromBigEndian(buf)], buf[4 + FromBigEndian(buf)..];
    assert buf == buf[..4] + body + behind;
  }

  lemma SplitStream<M>(c: BodyCodec<M>, ms: seq<M>, tail: Bytes)
    requires ms != []
    ensures SerializeAll(c, ms) + tail == Serialize(c, ms[0]) + (SerializeAll(c, ms[1..]) + tail)
  {
  }

  lemma SerializedPrefix<M>(c: BodyCodec<M>, m: M, rest: Bytes)
    requires |c.encode(m)| < U32
    ensures |Serialize(c, m)| == 4 + |c.encode(m)|
    ensures FromBigEndian(Serialize(c, m) + rest) == |c.encode(m)|
  {
    var body := c.encode(m);
    LengthRoundTrips(|body|, body + rest);
    SerializeFrames(c, m);
    assert FrameOf(body) + rest == ToBigEndian(|body|) + (body + rest);
  }

  lemma DrainStep<M>(c: BodyCodec<M>, limit: nat, buf: Bytes, before: seq<M>, frame: Frame<M>)
    requires !OversizeAnnounced(buf, limit) && DecodeFrame(c, buf) == Ok(Some(frame))
    ensures frame.consumed <= |buf|
    ensures Drain(c, limit, Receiver(buf, before, false))
         == Drain(c, limit, Receiver(buf[frame.consumed..], before + [frame.message], false))
  {
  }

  lemma DrainOne<M(!new)>(c: BodyCodec<M>, limit: nat, m: M, rest: Bytes, before: seq<M>)
    requires Invertible(c) && Fits(c, limit, m)
    ensures Drain(c, limit, Receiver(Serialize(c, m) + rest, before, false))
         == Drain(c, limit, Receiver(rest, before + [m], false))
  {
    var frame := Serialize(c, m);
    FrameRoundTripsExactly(c, m, rest);
    SerializedPrefix(c, m, rest);
    DrainStep(c, limit, frame + rest, before, Frame(m, |frame|));
    assert (frame + rest)[|frame|..] == rest;
  }

  lemma PartialFrameWaits<M>(c: BodyCodec<M>, limit: nat, m: M, cut: nat)
    requires Fits(c, limit, m) && cut < |Serialize(c, m)|
    ensures var part := Serialize(c, m)[..cut]; DecodeFrame(c, part) == Ok(None) && !OversizeAnnounced(part, limit)
  {
    SerializedPrefix(c, m, []);
    if cut >= 4 { PartialPrefix(c, m, cut); }
    ShortFrameWaits(c, limit, Serialize(c, m)[..cut]);
  }

  lemma ShortFrameWaits<M>(c: BodyCodec<M>, limit: nat, part: Bytes)
    requires |part| >= 4 ==> |part| < 4 + FromBigEndian(part) && FromBigEndian(part) <= limit
    ensures DecodeFrame(c, part) == Ok(None) && !OversizeAnnounced(part, limit)
  {
  }

  lemma PartialPrefix<M>(c: BodyCodec<M>, m: M, cut: nat)
    requires |c.encode(m)| < U32 && 4 <= cut < 4 + |c.encode(m)| == |Serialize(c, m)|
    ensures FromBigEndian(Serialize(c, m)[..cut]) == |c.encode(m)|
  {
    SerializeFrames(c, m);
    AnyPrefix(c.encode(m), cut);
  }

  lemma SerializeFrames<M>(c: BodyCodec<M>, m: M)
    requires |c.encode(m)| < U32
    ensures Serialize(c, m) == FrameOf(c.encode(m))
  {
    BelowTheWrap(|c.encode(m)|);
  }

  lemma BelowTheWrap(n: nat)
    requires n < U32
    ensures n % U32 == n
  {
  }

  lemma AnyPrefix(body: Bytes, cut: nat)
    requires |body| < U32 && 4 <= cut < 4 + |body|
    ensures FromBigEndian(FrameOf(body)[..cut]) == |body|
  {
    LengthRoundTrips(|body|, body[..cut - 4]);
    TakePast(ToBigEndian(|body|), body, cut);
  }

  lemma TakePast(a: Bytes, b: Bytes, cut: nat)
    requires |a| <= cut <= |a| + |b|
    ensures (a + b)[..cut] == a + b[..cut - |a|]
  {
  }
}
