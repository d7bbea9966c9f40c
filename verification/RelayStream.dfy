/** The relay packet layer as functions on byte streams: what its reader makes of any stream, and
    what its writer sends. The class `Relay.RelayFrameConn` is proved against these. */
module RelayStream {
  import opened Octets
  import MixStream
  import Packet

  /** What `Read` does with the head of its buffer. A packet whose contents do not check is dropped
      with an error; a refused head, or a panic on a zero length, stops the stream. */
  datatype Take = Wait | Reject | Accept(size: nat, out: Option<Bytes>)

  function TakePacket(crc: Packet.Checksum, w: Bytes): (t: Take)
    ensures t.Accept? ==> 0 < t.size <= |w|
  {
    match Packet.CheckReady(w) {
      case NeedMore => Wait
      case Ready(n) => Accept(n, Packet.GetData(crc, w[..n]))
      case _ => Reject
    }
  }

  lemma TakeByCheck(crc: Packet.Checksum, w: Bytes)
    ensures var c, t := Packet.CheckReady(w), TakePacket(crc, w);
            && (c == Packet.NeedMore ==> t == Wait)
            && (c.Bad? || c.Crash? ==> t == Reject)
            && (c.Ready? ==> 0 < c.total <= |w| && t == Accept(c.total, Packet.GetData(crc, w[..c.total])))
  {
  }

  /** Everything the reader will ever deliver from stream `w`. */
  function Unpack(crc: Packet.Checksum, w: Bytes): Bytes
    decreases |w|
  {
    var t := TakePacket(crc, w);
    if t.Accept? then OrEmpty(t.out) + Unpack(crc, w[t.size..]) else []
  }

  /** A stream on which the reader meets no error of its own. */
  predicate Clean(crc: Packet.Checksum, w: Bytes)
    decreases |w|
  {
    var t := TakePacket(crc, w);
    t.Wait? || (t.Accept? && t.out.Some? && Clean(crc, w[t.size..]))
  }

  /** One turn of the reader over the bytes it holds. */
  lemma TakeStep(crc: Packet.Checksum, held: Bytes, below: Bytes)
    ensures var t, w := TakePacket(crc, held), held + below;
            && (t.Accept? ==> Unpack(crc, w) == OrEmpty(t.out) + Unpack(crc, held[t.size..] + below))
            && (t.Accept? && Clean(crc, w) ==> t.out.Some? && Clean(crc, held[t.size..] + below))
            && (t.Reject? ==> !Clean(crc, w))
  {
    var w := held + below;
    assert w[..|held|] == held;
    Packet.CheckIsStable(w, |held|, Packet.MAX_BYTE_PER_PACKET);
    var t := TakePacket(crc, held);
    if t.Accept? {
      assert w[..t.size] == held[..t.size];
      assert w[t.size..] == held[t.size..] + below;
    }
  }

  /** A decision on the bytes held is the decision on all of the stream. */
  lemma TakeIsLocal(crc: Packet.Checksum, held: Bytes, below: Bytes)
    ensures TakePacket(crc, held) != Wait || below == [] ==> TakePacket(crc, held + below) == TakePacket(crc, held)
  {
    hide Packet.GetDataCheckTs;
    var w := held + below;
    assert w[..|held|] == held;
    Packet.CheckIsStable(w, |held|, Packet.MAX_BYTE_PER_PACKET);
    var t := TakePacket(crc, held);
    if t.Accept? { assert w[..t.size] == held[..t.size]; }
    if below == [] { assert w == held; }
  }

  /** What reading a packet at the head of a stream comes to: its data, or an error of the stream; while
      there is neither, one of the connection below. */
  ghost predicate Outcome(t: Take, err: Option<NetError>) {
    match t
    case Wait => err == Some(Timeout) || err == Some(Eof)
    case Reject => err == Some(Protocol) || err == Some(Panicked)
    case Accept(_, out) => err == if out.Some? then None else Some(Protocol)
  }

  /** Nothing is due from bytes that hold no complete packet. */
  lemma NothingDue(crc: Packet.Checksum, w: Bytes)
    requires TakePacket(crc, w) == Wait
    ensures Unpack(crc, w) == []
  {
  }

  /** A packet whose checksum is not that of its data, at the head of any stream: the reader drops all of
      it with an error, delivers nothing of it, and goes on behind it. */
  lemma DamagedPacketDropped(crc: Packet.Checksum, p: Packet.DataPacket, rest: Bytes)
    requires |p.data| < Packet.TWO_64 && p.crc < Packet.TWO_32 && p.ts < Packet.TWO_64 && |Packet.Envelop(p)| <= Packet.MAX_BYTE_PER_PACKET
    requires p.crc != crc(p.data) % 0x1_0000_0000
    ensures var e := Packet.Envelop(p);
            && TakePacket(crc, e + rest) == Accept(|e|, None)
            && Unpack(crc, e + rest) == Unpack(crc, rest) && !Clean(crc, e + rest)
  {
    hide Packet.Envelop, Packet.CheckReadyWithLength, Packet.GetDataCheckTs;
    var e := Packet.Envelop(p);
    Packet.EnvelopSize(p);
    Packet.DamagedYieldsNothing(crc, p, rest, 0, 0);
    assert (e + rest)[|e|..] == rest;
  }

  // ---------- consumed packets ----------

  /** The bytes `c` are behind the reader, which made `d` of them: whatever follows, only what
      follows is still to be unpacked. */
  ghost predicate Consumed(crc: Packet.Checksum, c: Bytes, d: Bytes) {
    forall x: Bytes :: Unpack(crc, c + x) == d + Unpack(crc, x) && (Clean(crc, c + x) ==> Clean(crc, x))
  }

  lemma NothingConsumed(crc: Packet.Checksum)
    ensures Consumed(crc, [], [])
  {
    hide Unpack, Clean;
    forall x: Bytes ensures Unpack(crc, [] + x) == [] + Unpack(crc, x) && (Clean(crc, [] + x) ==> Clean(crc, x)) {
      assert [] + x == x;
    }
  }

  /** The length field cannot name fewer than 6 bytes and pass both delimiter tests, and a packet of
      6 is always dropped. */
  lemma NoShortPackets(crc: Packet.Checksum, w: Bytes)
    requires TakePacket(crc, w).Accept?
    ensures var t := TakePacket(crc, w); t.size >= 6 && |w| > 6 && (t.size == 6 ==> t.out == None)
  {
    var n := GetU32(w);
    assert PutU32(n) == w[..4] by { PutGetU32(w[..4]); }
  }

  /** A packet taken from `w` is taken again from its own bytes followed by anything; only a dropped
      packet of 6 needs one byte more to be noticed. */
  lemma PacketStands(crc: Packet.Checksum, w: Bytes, x: Bytes)
    requires TakePacket(crc, w).Accept?
    ensures var t := TakePacket(crc, w); var v := w[..t.size] + x;
            if |v| > 6 then TakePacket(crc, v) == t else x == [] && t.out == None && TakePacket(crc, v) == Wait
  {
    hide Packet.GetDataCheckTs;
    NoShortPackets(crc, w);
    var t := TakePacket(crc, w);
    var p := w[..t.size];
    var v := p + x;
    if |v| > 6 {
      assert GetU32(v) == GetU32(w) && v[4] == w[4] && v[t.size - 1] == w[t.size - 1];
      assert v[..t.size] == p;
    }
  }

  lemma UnpackOne(crc: Packet.Checksum, w: Bytes, x: Bytes)
    requires TakePacket(crc, w).Accept?
    ensures var t := TakePacket(crc, w);
            && Unpack(crc, w[..t.size] + x) == OrEmpty(t.out) + Unpack(crc, x)
            && (Clean(crc, w[..t.size] + x) ==> Clean(crc, x))
  {
    hide TakePacket;
    PacketStands(crc, w, x);
    var t := TakePacket(crc, w);
    var v := w[..t.size] + x;
    if |v| > 6 {
      assert v[t.size..] == x;
    } else {
      EmptyStream(crc);
    }
  }

  /** Consuming one more packet. */
  lemma ConsumeOneMore(crc: Packet.Checksum, c: Bytes, d: Bytes, w: Bytes)
    requires Consumed(crc, c, d) && TakePacket(crc, w).Accept?
    ensures var t := TakePacket(crc, w); Consumed(crc, c + w[..t.size], d + OrEmpty(t.out))
  {
    hide TakePacket, Unpack, OrEmpty, Clean;
    var t := TakePacket(crc, w);
    var p := w[..t.size];
    forall x: Bytes
      ensures Unpack(crc, (c + p) + x) == (d + OrEmpty(t.out)) + Unpack(crc, x) && (Clean(crc, (c + p) + x) ==> Clean(crc, x))
    {
      Assoc(c, p, x);
      assert Unpack(crc, c + (p + x)) == d + Unpack(crc, p + x);
      UnpackOne(crc, w, x);
      Assoc(d, OrEmpty(t.out), Unpack(crc, x));
    }
  }

  // ---------- writing ----------

  /** One call of `Write`: the data and the clock reading. */
  datatype Sent = Sent(data: Bytes, ts: nat)

  /** `Write` shortens an argument above 26214 bytes to four fifths of its own length. */
  function Cut(n: nat): (k: nat)
    ensures k <= n && (n > 0 ==> k > 0)
  {
    if n > 4 * Packet.MAX_BYTE_PER_PACKET / 5 then n * 4 / 5 else n
  }

  /** Exactly the limit of the mix layer decides, and four fifths round down. */
  lemma CutIs(n: nat)
    ensures n <= 26214 ==> Cut(n) == n
    ensures n > 26214 ==> 5 * Cut(n) <= 4 * n < 5 * Cut(n) + 5
  {
  }

  function Packets(crc: Packet.Checksum, ps: seq<Sent>): seq<Bytes> {
    if ps == [] then [] else [Packet.Build(crc, ps[0].data, ps[0].ts)] + Packets(crc, ps[1..])
  }

  function PacketStream(crc: Packet.Checksum, ps: seq<Sent>): Bytes {
    Concat(Packets(crc, ps))
  }

  /** The data of a sending history. */
  function Payload(ps: seq<Sent>): Bytes {
    if ps == [] then [] else ps[0].data + Payload(ps[1..])
  }

  lemma PacketStreamStep(crc: Packet.Checksum, ps: seq<Sent>)
    requires ps != []
    ensures PacketStream(crc, ps) == Packet.Build(crc, ps[0].data, ps[0].ts) + PacketStream(crc, ps[1..])
  {
    assert Packets(crc, ps)[1..] == Packets(crc, ps[1..]);
  }

  lemma {:induction false} PacketsAppend(crc: Packet.Checksum, a: seq<Sent>, b: seq<Sent>)
    ensures PacketStream(crc, a + b) == PacketStream(crc, a) + PacketStream(crc, b)
    ensures Payload(a + b) == Payload(a) + Payload(b)
  {
    hide Packet.Build, PacketStream;
    EmptyStream(crc);
    if a == [] {
      assert a + b == b;
    } else {
      PacketsAppend(crc, a[1..], b);
      assert (a + b)[1..] == a[1..] + b;
      PacketStreamStep(crc, a);
      PacketStreamStep(crc, a + b);
      Assoc(Packet.Build(crc, a[0].data, a[0].ts), PacketStream(crc, a[1..]), PacketStream(crc, b));
      Assoc(a[0].data, Payload(a[1..]), Payload(b));
    }
  }

  /** The mix-layer messages that carry the packets: each packet is cut to what one `Write` of the
      mix layer takes. */
  function Messages(crc: Packet.Checksum, ps: seq<Sent>): seq<Bytes> {
    if ps == [] then []
    else MixStream.Split(Packet.Build(crc, ps[0].data, ps[0].ts)) + Messages(crc, ps[1..])
  }

  lemma {:induction false} MessagesCarryPackets(crc: Packet.Checksum, ps: seq<Sent>)
    ensures Concat(Messages(crc, ps)) == PacketStream(crc, ps)
    ensures MixStream.Payloads(Messages(crc, ps))
  {
    hide Packet.Build, PacketStream;
    EmptyStream(crc);
    if ps != [] {
      var p := Packet.Build(crc, ps[0].data, ps[0].ts);
      MessagesCarryPackets(crc, ps[1..]);
      PacketStreamStep(crc, ps);
      ConcatAppend(MixStream.Split(p), Messages(crc, ps[1..]));
      MixStream.SplitLosesNothing(p);
    }
  }

  lemma MessagesStep(crc: Packet.Checksum, p: Sent, ps: seq<Sent>)
    ensures Messages(crc, [p] + ps) == MixStream.Split(Packet.Build(crc, p.data, p.ts)) + Messages(crc, ps)
    ensures Messages(crc, []) == []
  {
    hide Packet.Build, MixStream.Split;
    assert ([p] + ps)[1..] == ps;
  }

  lemma {:induction false} MessagesAppend(crc: Packet.Checksum, a: seq<Sent>, b: seq<Sent>)
    ensures Messages(crc, a + b) == Messages(crc, a) + Messages(crc, b)
  {
    hide Packet.Build, MixStream.Split, Messages;
    if a == [] {
      MessagesStep(crc, Sent([], 0), []);
      assert a + b == b;
    } else {
      var p, rest := a[0], a[1..];
      MessagesAppend(crc, rest, b);
      assert a == [p] + rest && a + b == [p] + (rest + b);
      MessagesStep(crc, p, rest);
      MessagesStep(crc, p, rest + b);
      Assoc(MixStream.Split(Packet.Build(crc, p.data, p.ts)), Messages(crc, rest), Messages(crc, b));
    }
  }

  /** Packets the receiver's limit admits, with a 64-bit clock. */
  ghost predicate Fits(crc: Packet.Checksum, p: Sent) {
    Packet.PacketSize(crc, p.data, p.ts) <= Packet.MAX_BYTE_PER_PACKET && p.ts < Packet.TWO_64
  }

  /** A `Write` of at most 32768 bytes always makes a fitting packet, and so does anything up to
      40927 bytes; whether a larger one does is decided by its size alone (`PacketAcceptedIff`). */
  lemma CutFits(crc: Packet.Checksum, b: Bytes, ts: nat)
    requires |b| <= 40927 && ts < Packet.TWO_64
    ensures Fits(crc, Sent(b[..Cut(|b|)], ts))
  {
    Packet.PacketOverhead(crc, b[..Cut(|b|)], ts);
  }

  /** From 40944 bytes on, the shortened data still makes a packet every receiver refuses, as long as
      the packet's size fits its length field. */
  lemma LargeWriteRefused(crc: Packet.Checksum, b: Bytes, ts: nat, rest: Bytes)
    requires |b| >= 40944 && Packet.PacketSize(crc, b[..Cut(|b|)], ts) < Packet.TWO_32
    ensures var p := Packet.Build(crc, b[..Cut(|b|)], ts);
            Packet.CheckReady(p + rest) == Packet.Bad(-1)
  {
    var data := b[..Cut(|b|)];
    assert Packet.VarintLength(|data|) >= 3 by {
      assert Packet.VarintLength(|data| / 128) == 1 + Packet.VarintLength(|data| / 128 / 128);
    }
    Packet.PacketFields(crc, data, ts, rest);
  }

  /** The reader's first step on a stream that starts with an honest packet. */
  lemma HonestStep(crc: Packet.Checksum, p: Sent, q: Bytes)
    requires Fits(crc, p) && Packet.Build(crc, p.data, p.ts) <= q
    ensures var rest := q[|Packet.Build(crc, p.data, p.ts)|..];
            && Unpack(crc, q) == p.data + Unpack(crc, rest)
            && (Clean(crc, rest) ==> Clean(crc, q))
  {
    hide Packet.Build, Packet.CheckReadyWithLength, Packet.PacketSize;
    var f := Packet.Build(crc, p.data, p.ts);
    var rest := q[|f|..];
    assert q == f + rest;
    Packet.PacketSizeIs(crc, p.data, p.ts);
    Packet.PacketAcceptedIff(crc, p.data, p.ts, Packet.MAX_BYTE_PER_PACKET, rest);
    Packet.GetDataOfBuild(crc, p.data, p.ts, 0, 0);
    assert TakePacket(crc, q) == Accept(|f|, Some(p.data)) by { assert q[..|f|] == f; }
  }

  lemma HonestWait(crc: Packet.Checksum, p: Sent, k: nat)
    requires Fits(crc, p) && k < |Packet.Build(crc, p.data, p.ts)|
    ensures var q := Packet.Build(crc, p.data, p.ts)[..k];
            Unpack(crc, q) == [] && Clean(crc, q)
  {
    Packet.PacketSizeIs(crc, p.data, p.ts);
    Packet.StrictPrefixNeedsMore(crc, p.data, p.ts, Packet.MAX_BYTE_PER_PACKET, k);
  }

  /** For every sending history and every prefix of its stream: no error, and exactly the data of
      the first j packets; of all of them when the stream is whole. */
  lemma {:induction false} HonestPrefix(crc: Packet.Checksum, ps: seq<Sent>, q: Bytes) returns (j: nat)
    requires forall p :: p in ps ==> Fits(crc, p)
    requires q <= PacketStream(crc, ps)
    ensures Clean(crc, q)
    ensures j <= |ps| && Unpack(crc, q) == Payload(ps[..j])
    ensures q == PacketStream(crc, ps) ==> j == |ps|
    decreases |ps|
  {
    hide TakePacket, Fits, Packet.Build, PacketStream;
    if ps == [] {
      j := 0;
      EmptyStream(crc);
    } else {
      var f := Packet.Build(crc, ps[0].data, ps[0].ts);
      PacketStreamStep(crc, ps);
      PrefixSplit(q, f, PacketStream(crc, ps[1..]));
      if |q| < |f| {
        HonestWait(crc, ps[0], |q|);
        j := 0;
      } else {
        HonestStep(crc, ps[0], q);
        var i := HonestPrefix(crc, ps[1..], q[|f|..]);
        j := i + 1;
        assert ps[..j][1..] == ps[1..][..i];
      }
    }
  }

  lemma EmptyStream(crc: Packet.Checksum)
    ensures Clean(crc, []) && Unpack(crc, []) == [] && PacketStream(crc, []) == []
  {
  }

  lemma PayloadTake(ps: seq<Sent>, j: nat)
    requires j <= |ps|
    ensures Payload(ps[..j]) <= Payload(ps)
  {
    assert ps == ps[..j] + ps[j..];
    PacketsAppend(_ => 0, ps[..j], ps[j..]);
  }
}
