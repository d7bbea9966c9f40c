/** The whole tunnel: a relay connection over the mix layer over the padding layer, at both ends of
    a network that cuts and merges bytes as it likes. */
module Tunnel {
  import opened Octets
  import opened Codec
  import opened MixStream
  import opened MixLayer
  import opened Relay
  import opened Exchange
  import Frame
  import Packet
  import XorCodec
  import BlockCodec
  import RS = RelayStream

  /** Any codec that keeps its contract, with the 20-byte key and an IV of its length. */
  ghost predicate Opening<S(!new)>(cfg: Config<S>, paired: (S, S) -> bool, iv: Bytes) {
    Paired(cfg.codec, paired) && |cfg.key| == KEY_LENGTH && |iv| == cfg.codec.ivLen
  }

  /** The codecs of the repository modelled here open a tunnel under any 20-byte key and any IV of
      their length: the identity, XOR over any non-empty digest, and any block permutation of at most
      16 bytes under PKCS5 padding. */
  lemma CodecsQualify(hmac: Frame.Hmac, sha: Bytes -> Bytes, c: BlockCodec.Cipher, key: Bytes, iv: Bytes)
    requires |key| == KEY_LENGTH
    requires forall x :: sha(x) != []
    requires BlockCodec.IsPermutation(c) && c.size <= MAX_GROWTH
    ensures |iv| == 19 ==> Opening(Config(hmac, key, NoneCodec()), NoneInStep, iv)
    ensures |iv| == 13 ==> Opening(Config(hmac, key, XorCodec.XorAsCodec(sha)), XorCodec.XorInStep, iv)
    ensures |iv| == 8 ==> Opening(Config(hmac, key, BlockCodec.BlowFishCodec(c)), BlockCodec.SameKey, iv)
  {
    hide Paired;
    NonePaired();
    XorCodec.XorPaired(sha);
    BlockCodec.BlowFishPaired(c);
  }

  function Receiver<S>(cfg: Config<S>): Reader<S> {
    Reader(false, cfg.codec.blank)
  }

  /** What a sending history puts on the raw wire. */
  function WireOf<S>(cfg: Config<S>, ws: Writer<S>, crc: Packet.Checksum, pad: Bytes, ps: seq<RS.Sent>): Bytes {
    pad + FrameStream(cfg, ws, RS.Messages(crc, ps))
  }

  ghost predicate AllFit(crc: Packet.Checksum, ps: seq<RS.Sent>) {
    forall p :: p in ps ==> RS.Fits(crc, p)
  }

  /** End to end, as functions: for every codec, every pad, every sending history and every prefix
      of its wire, undoing the three layers gives the data of the first k packets, without an error
      in any layer; the data of all of them when the wire is whole. */
  lemma TunnelDelivers<S(!new)>(cfg: Config<S>, paired: (S, S) -> bool, ws: Writer<S>, crc: Packet.Checksum, pad: Bytes, ps: seq<RS.Sent>, p: Bytes)
    returns (k: nat)
    requires Paired(cfg.codec, paired) && |cfg.key| == KEY_LENGTH && InStep(cfg, paired, ws, Receiver(cfg))
    requires AllFit(crc, ps) && p <= WireOf(cfg, ws, crc, pad, ps)
    ensures var frames := Skip(|pad|, p); var packets := Deframe(cfg, Receiver(cfg), frames);
            && Clean(cfg, Receiver(cfg), frames) && RS.Clean(crc, packets)
            && k <= |ps| && RS.Unpack(crc, packets) == RS.Payload(ps[..k])
    ensures RS.Payload(ps[..k]) <= RS.Payload(ps)
    ensures p == WireOf(cfg, ws, crc, pad, ps) ==> k == |ps|
  {
    hide Deframe, Clean, FrameStream, RS.Messages, RS.Unpack, RS.Clean, RS.PacketStream, RS.Payload, InStep, Paired, Skip;
    var ms := RS.Messages(crc, ps);
    var frames := Skip(|pad|, p);
    PadIsTransparent(pad, FrameStream(cfg, ws, ms), p);
    RS.MessagesCarryPackets(crc, ps);
    var j := HonestPrefix(cfg, paired, ws, Receiver(cfg), ms, frames);
    ConcatTake(ms, j);
    assert ms[..|ms|] == ms;
    k := RS.HonestPrefix(crc, ps, Concat(ms[..j]));
    RS.PayloadTake(ps, k);
  }

  /** The reader of the mix layer in mid-run, over whatever part of an honest wire has arrived and after
      any reads and timeouts: it has consumed the frames of the first j messages, what it handed out
      with what it holds decoded is those messages, what is undecoded is what arrived of the remaining
      frames, it is initialised exactly when j > 0, and its decoder is in step with the encoder after j
      messages. */
  lemma ReaderBooks<S(!new)>(mix: MixLayerAdaptor<S>, paired: (S, S) -> bool, ws: Writer<S>, pad: Bytes, ms: seq<Bytes>)
    returns (j: nat)
    requires mix.Valid() && mix.enableDecode && mix.base == 0 && mix.conn.start == |pad|
    requires Paired(mix.cfg.codec, paired) && |mix.cfg.key| == KEY_LENGTH && InStep(mix.cfg, paired, ws, Receiver(mix.cfg))
    requires Payloads(ms) && mix.conn.Arrived() <= pad + FrameStream(mix.cfg, ws, ms)
    ensures j <= |ms| && mix.given + mix.decbuf == Concat(ms[..j]) && mix.eaten == FrameStream(mix.cfg, ws, ms[..j])
    ensures mix.eaten + mix.Raw() == Skip(|pad|, mix.conn.Arrived())
    ensures mix.Raw() <= FrameStream(mix.cfg, WriterAfter(mix.cfg, ws, ms[..j]), ms[j..])
    ensures mix.initRead <==> j > 0
    ensures InStep(mix.cfg, paired, WriterAfter(mix.cfg, ws, ms[..j]), mix.ReaderState())
  {
    hide Deframe, Clean, Feed, FrameStream, WriterAfter, InStep, Paired, Skip, TakeFrame;
    var cfg := mix.cfg;
    WireTaken(mix, |pad|);
    var frames := FrameStream(cfg, ws, ms);
    PadIsTransparent(pad, frames, mix.conn.Arrived());
    PrefixPart(mix.eaten, mix.Raw(), frames);
    j := HonestFeed(cfg, paired, ws, Receiver(cfg), ms, mix.eaten);
    FrameStreamAppend(cfg, ws, ms[..j], ms[j..]);
    assert ms[..j] + ms[j..] == ms;
    PrefixRest(mix.eaten, mix.Raw(), FrameStream(cfg, WriterAfter(cfg, ws, ms[..j]), ms[j..]));
  }

  /** Everything that arrived, but for the pad, is what the mix layer consumed and what it has still to
      decode. */
  lemma WireTaken<S>(mix: MixLayerAdaptor<S>, skip: nat)
    requires mix.Valid() && mix.enableDecode && mix.base == 0 && mix.conn.start == skip
    ensures mix.eaten + mix.Raw() == Skip(skip, mix.conn.Arrived())
  {
    hide Feed, Skip;
    var pc := mix.conn;
    FilterStep(skip, pc.seen, pc.counter, pc.conn.inbox, |pc.conn.inbox|);
    assert pc.conn.inbox[..|pc.conn.inbox|] == pc.conn.inbox;
    assert pc.given[0..] == pc.given;
    // (eaten + rbuf) + (pc.rbuf + below) == (given + pc.rbuf) + below
    Assoc(mix.eaten, mix.rbuf, pc.Pending());
    Assoc(pc.given, pc.rbuf, Skip(pc.counter, pc.conn.inbox));
  }

  lemma PrefixPart(x: Bytes, y: Bytes, w: Bytes)
    requires x + y <= w
    ensures x <= w
  {
  }

  lemma PrefixRest(x: Bytes, y: Bytes, z: Bytes)
    requires x + y <= x + z
    ensures y <= z
  {
    assert y == (x + y)[|x|..] && (x + y) == (x + z)[..|x + y|];
  }

  /** The books of a receiving stack in mid-run: given what each layer has consumed and made of it,
      and whatever part of the wire has arrived, no layer is facing an error, and what was made so
      far with what is still due is a prefix of the data sent; all of it once everything arrived. */
  lemma Accounts<S(!new)>(cfg: Config<S>, paired: (S, S) -> bool, ws: Writer<S>, crc: Packet.Checksum, pad: Bytes, ps: seq<RS.Sent>,
                          arrived: Bytes, eaten: Bytes, raw: Bytes, eaten': Bytes, plain': Bytes, raw': Bytes)
    requires Paired(cfg.codec, paired) && |cfg.key| == KEY_LENGTH && InStep(cfg, paired, ws, Receiver(cfg))
    requires AllFit(crc, ps) && arrived <= WireOf(cfg, ws, crc, pad, ps)
    requires Skip(|pad|, arrived) == eaten + raw
    requires Feed(cfg, Receiver(cfg), eaten).Some?
    requires var (r, plain) := Feed(cfg, Receiver(cfg), eaten).value; plain + Deframe(cfg, r, raw) == eaten' + raw'
    requires RS.Consumed(crc, eaten', plain')
    ensures Clean(cfg, Feed(cfg, Receiver(cfg), eaten).value.0, raw) && RS.Clean(crc, raw')
    ensures plain' + RS.Unpack(crc, raw') <= RS.Payload(ps)
    ensures arrived == WireOf(cfg, ws, crc, pad, ps) ==> plain' + RS.Unpack(crc, raw') == RS.Payload(ps)
  {
    hide Deframe, Clean, Feed, WireOf, RS.Unpack, RS.Clean, RS.Payload, InStep, Paired, Skip, AllFit;
    var k := TunnelDelivers(cfg, paired, ws, crc, pad, ps, arrived);
    FeedThenDeframe(cfg, Receiver(cfg), eaten, raw);
    assert RS.Unpack(crc, eaten' + raw') == plain' + RS.Unpack(crc, raw');
    assert ps[..|ps|] == ps;
  }

  // ---------- a run of both ends ----------

  /** One step of a run, in one of the two directions: the client at its start hands over a buffer, the
      network carries up to `n` more bytes, or the client at its end reads into a buffer of `size` bytes. */
  datatype Action = Send(forth: bool, data: Bytes) | Carry(forth: bool, n: nat) | Receive(forth: bool, size: nat)

  /** The largest buffer that is always cut into packets the peer accepts. */
  const MAX_WRITE: nat := 40927

  /** A receiving stack that has seen `arrived`, wrapped around a fresh connection. */
  ghost predicate Tracks<S>(rel: RelayFrameConn<S>, skip: nat, arrived: Bytes)
    reads rel, rel.conn, rel.conn.conn, rel.conn.conn.conn
  {
    && rel.Valid() && rel.base == 0 && rel.spare == []
    && rel.conn.base == 0 && rel.conn.enableDecode && rel.conn.Settled()
    && rel.conn.conn.start == skip && rel.conn.conn.Arrived() == arrived
  }

  /** The stack's fields are such books. */
  lemma TracksAccounts<S(!new)>(rel: RelayFrameConn<S>, paired: (S, S) -> bool, ws: Writer<S>, pad: Bytes, ps: seq<RS.Sent>, arrived: Bytes)
    requires Tracks(rel, |pad|, arrived)
    requires var cfg := rel.conn.cfg;
             && Paired(cfg.codec, paired) && |cfg.key| == KEY_LENGTH && InStep(cfg, paired, ws, Receiver(cfg))
             && AllFit(rel.crc, ps) && arrived <= WireOf(cfg, ws, rel.crc, pad, ps)
    ensures rel.IsClean()
    ensures rel.given <= RS.Payload(ps)
    ensures arrived == WireOf(rel.conn.cfg, ws, rel.crc, pad, ps) && rel.Pending() == [] ==> rel.given == RS.Payload(ps)
  {
    hide Deframe, Clean, Feed, WireOf, RS.Unpack, RS.Clean, RS.Payload, InStep, Paired, Skip, AllFit, TakeFrame, RS.Consumed;
    var mix := rel.conn;
    WireTaken(mix, |pad|);
    assert mix.given[0..] == mix.given && [] + mix.given == mix.given;
    var due := Deframe(mix.cfg, mix.ReaderState(), mix.Raw());
    Assoc(mix.given, mix.decbuf, due);
    Assoc(rel.eaten, rel.rbuf, mix.Pending());
    assert rel.eaten + rel.Raw() == mix.plain + due;
    Accounts(mix.cfg, paired, ws, rel.crc, pad, ps, arrived, mix.eaten, mix.Raw(), rel.eaten, rel.plain, rel.Raw());
    Assoc(rel.given, rel.rdbuf, RS.Unpack(rel.crc, rel.Raw()));
  }

  /** The fields of `a` and of `b` share no object. */
  ghost predicate Apart<S>(a: RelayFrameConn<S>, b: RelayFrameConn<S>) {
    && a != b && a.conn != b.conn && a.conn.conn != b.conn.conn && a.conn.conn.conn != b.conn.conn.conn
    && a.rtmp != b.rtmp && a.rtmp != b.conn.rtmp && a.conn.rtmp != b.rtmp && a.conn.rtmp != b.conn.rtmp
  }

  /** A longer sending history extends the wire by what the sender, in the state it is in, emits. */
  lemma MoreSent<S>(cfg: Config<S>, ws: Writer<S>, crc: Packet.Checksum, pad: Bytes, ps: seq<RS.Sent>, more: seq<RS.Sent>)
    ensures var now := WriterAfter(cfg, ws, RS.Messages(crc, ps));
            && WireOf(cfg, ws, crc, pad, ps + more) == WireOf(cfg, ws, crc, pad, ps) + FrameStream(cfg, now, RS.Messages(crc, more))
            && WriterAfter(cfg, ws, RS.Messages(crc, ps + more)) == WriterAfter(cfg, now, RS.Messages(crc, more))
    ensures RS.Payload(ps + more) == RS.Payload(ps) + RS.Payload(more)
  {
    hide FrameStream, WriterAfter, RS.Messages, RS.Payload;
    var ms := RS.Messages(crc, ps);
    RS.MessagesAppend(crc, ps, more);
    FrameStreamAppend(cfg, ws, ms, RS.Messages(crc, more));
    FramesAppend(cfg, ws, ms, RS.Messages(crc, more));
    RS.PacketsAppend(crc, ps, more);
    Assoc(pad, FrameStream(cfg, ws, ms), FrameStream(cfg, WriterAfter(cfg, ws, ms), RS.Messages(crc, more)));
  }

  /** The three layers over a new raw connection. */
  method NewStack<S>(cfg: Config<S>, iv: Bytes, crc: Packet.Checksum, pad: Bytes, skip: nat) returns (rel: RelayFrameConn<S>)
    requires cfg.codec.initWrite(cfg.key, iv).Some?
    ensures fresh(rel) && fresh(rel.rtmp) && fresh(rel.conn) && fresh(rel.conn.rtmp) && fresh(rel.conn.conn) && fresh(rel.conn.conn.conn)
    ensures Tracks(rel, skip, []) && rel.given == [] && rel.crc == crc && rel.conn.cfg == cfg
    ensures rel.conn.enableEncode && rel.conn.WriterState() == Writer(iv, cfg.codec.initWrite(cfg.key, iv).value)
    ensures rel.conn.conn.conn.outbox == [] && rel.conn.conn.wbuf == pad
    ensures rel.conn.Faults() == 0 && rel.conn.Trouble() == NO_TROUBLE
  {
    hide Skip, Deframe, RS.Unpack, TakeFrame, Feed, RS.Consumed;
    var raw := new RawConn();
    var padded := new ExchangeConn(raw, [], pad, skip);
    var mix := new MixLayerAdaptor.CryptWrap(padded, cfg, iv);
    rel := new RelayFrameConn.WrapRelayFrameConn(mix, crc, [], []);
  }

  /** One read by the client of a receiving stack that faces no error. */
  method ReadSome<S>(rel: RelayFrameConn<S>, size: nat, ghost skip: nat, ghost arrived: Bytes) returns (data: Bytes, err: Option<NetError>)
    requires Tracks(rel, skip, arrived) && rel.IsClean() && size >= 1
    modifies rel`rbuf, rel`rdbuf, rel`eaten, rel`plain, rel`given, rel.rtmp
    modifies rel.conn`rbuf, rel.conn`decbuf, rel.conn`initRead, rel.conn`rState, rel.conn`eaten, rel.conn`plain, rel.conn`given, rel.conn.rtmp
    modifies rel.conn.conn`rbuf, rel.conn.conn`counter, rel.conn.conn`seen, rel.conn.conn`given, rel.conn.conn.conn`inbox, rel.conn.conn.conn`trouble
    ensures Tracks(rel, skip, arrived) && rel.given == old(rel.given) + data
    ensures err == None || err == Some(Timeout) || err == Some(Eof)
    ensures Reported(err, old(rel.conn.Trouble()), rel.conn.Trouble())
    ensures RanDry(err, old(rel.conn.Trouble()), rel.conn.Trouble()) ==> rel.Pending() == []
    ensures err == None ==> data != [] || |rel.Raw()| < |old(rel.Raw())|
  {
    hide Deframe, MixStream.Clean, RS.Unpack, RS.Clean, TakeFrame, Feed, RS.Consumed, Skip, MixLayerAdaptor.Valid, RelayFrameConn.Valid;
    var b := new byte[size](_ => 0);
    var n;
    n, err := rel.Read(b, 0);
    assert b[0..0 + n] == b[..n];
    data := b[..n];
  }

  /** More bytes below extend what is undecoded. */
  lemma ArrivalExtends(held: Bytes, buffered: Bytes, counter: nat, inbox: Bytes, more: Bytes)
    ensures held + (buffered + Skip(counter, inbox)) <= held + (buffered + Skip(counter, inbox + more))
  {
    var k := Min(counter, |inbox|);
    assert (inbox + more)[..|inbox|] == inbox;
    SkipSplit(counter, inbox + more, |inbox|);
    PrefixGrows(Skip(counter, inbox), Skip(counter, inbox), Skip(counter - k, more));
    assert (inbox + more)[|inbox|..] == more;
    Assoc(buffered, Skip(counter, inbox), Skip(counter - k, more));
    Assoc(held, buffered + Skip(counter, inbox), Skip(counter - k, more));
  }

  lemma MoreIsDue<S>(cfg: Config<S>, r: Reader<S>, decoded: Bytes, raw: Bytes, raw': Bytes)
    requires raw <= raw'
    ensures decoded + Deframe(cfg, r, raw) <= decoded + Deframe(cfg, r, raw')
  {
    hide Deframe;
    DeframeMonotone(cfg, r, raw', |raw|);
    assert raw'[..|raw|] == raw;
  }

  /** One direction of a tunnel: the writing half of one stack, the reading half of another, and a
      network between their raw connections. `failed` records that a send gave up in the middle, after
      which the sender stops, as `Pipe` does. */
  class Link<S(!new)> {
    const sender: RelayFrameConn<S>
    const receiver: RelayFrameConn<S>
    const pad: Bytes
    var carried: nat
    var failed: bool
    var sent: Bytes
    var delivered: Bytes
    ghost const paired: (S, S) -> bool
    ghost const ws: Writer<S>
    ghost var ps: seq<RS.Sent>

    ghost function Cfg(): Config<S> {
      sender.conn.cfg
    }

    ghost function Wire(): Bytes
      reads this
    {
      WireOf(Cfg(), ws, sender.crc, pad, ps)
    }

    ghost function Outbox(): Bytes
      reads sender.conn.conn.conn
    {
      sender.conn.conn.conn.outbox
    }

    /** Of a sender that did not fail: its wire and its writer are where its history leaves them, and the
        pad is held back only before the first packet. */
    ghost predicate Unfailed()
      reads this, sender, sender.conn, sender.conn.conn, sender.conn.conn.conn
    {
      && sender.conn.Out() == Wire() && RS.Payload(ps) == sent
      && (sender.conn.conn.wbuf == [] || ps == [])
      && sender.conn.WriterState() == WriterAfter(Cfg(), ws, RS.Messages(sender.crc, ps))
    }

    ghost predicate SenderSide()
      reads this, sender, sender.conn, sender.conn.conn, sender.conn.conn.conn
    {
      && sender.Valid() && sender.conn.enableEncode
      && Paired(Cfg().codec, paired) && |Cfg().key| == KEY_LENGTH && InStep(Cfg(), paired, ws, Receiver(Cfg()))
      && AllFit(sender.crc, ps)
      && carried <= |Outbox()| && Outbox() <= Wire() && RS.Payload(ps) <= sent
      && (if failed then sender.conn.Faults() > 0 else Unfailed())
    }

    ghost predicate ReceiverSide(arrived: Bytes)
      reads this, receiver, receiver.conn, receiver.conn.conn, receiver.conn.conn.conn
    {
      && receiver.conn.cfg == Cfg() && receiver.crc == sender.crc
      && Tracks(receiver, |pad|, arrived) && receiver.given == delivered
    }

    /** What every step keeps. */
    ghost predicate Valid()
      reads this, sender, sender.conn, sender.conn.conn, sender.conn.conn.conn
      reads receiver, receiver.conn, receiver.conn.conn, receiver.conn.conn.conn
    {
      Apart(sender, receiver) && SenderSide() && ReceiverSide(Outbox()[..carried])
    }

    /** Nothing failed, everything sent was carried, and the receiver has nothing more to deliver. */
    ghost predicate Drained()
      reads this, sender.conn, sender.conn.conn, sender.conn.conn.conn
      reads receiver, receiver.conn, receiver.conn.conn, receiver.conn.conn.conn
    {
      !failed && carried == |Outbox()| && receiver.Pending() == []
    }

    /** In every state a run can reach, what was delivered is a prefix of what was sent, and all of it
        once the link is drained. */
    lemma Delivered()
      requires Valid()
      ensures delivered <= sent
      ensures Drained() ==> delivered == sent
    {
      hide WireOf, WriterAfter, RS.Messages, RS.Payload, Clean, Deframe, RS.Unpack, TakeFrame, Feed, RS.Consumed, InStep, Paired, AllFit;
      hide MixLayerAdaptor.Valid;
      TracksAccounts(receiver, paired, ws, pad, ps, Outbox()[..carried]);
      NothingPaid();
    }

    /** Without packets there is no data; with packets, and no failure, nothing is held back. */
    lemma NothingPaid()
      requires SenderSide()
      ensures !failed ==> sent == [] || Outbox() == Wire()
    {
      hide WireOf, WriterAfter, RS.Messages, InStep, Paired, AllFit, RelayFrameConn.Valid;
      if !failed && sender.conn.conn.wbuf == [] { assert Outbox() + sender.conn.conn.wbuf == Outbox(); }
    }

    /** The encoder of a sender that did not fail refuses nothing. */
    lemma SenderEncodes()
      requires SenderSide() && !failed
      ensures sender.conn.Encodes()
    {
      hide WireOf, WriterAfter, RS.Messages, RS.Payload, InStep, Paired, RelayFrameConn.Valid, NeverRefuses;
      RS.MessagesCarryPackets(sender.crc, ps);
      var r := StaysInStep(Cfg(), paired, ws, Receiver(Cfg()), RS.Messages(sender.crc, ps));
      InStepNeverRefuses(Cfg(), paired, sender.conn.WriterState(), r);
    }

    /** Between two stacks on which nothing has been sent or read in this direction. */
    constructor (sender: RelayFrameConn<S>, receiver: RelayFrameConn<S>, ghost paired: (S, S) -> bool, pad: Bytes)
      requires Apart(sender, receiver) && receiver.conn.cfg == sender.conn.cfg && receiver.crc == sender.crc
      requires sender.Valid() && sender.conn.enableEncode && Opening(sender.conn.cfg, paired, sender.conn.ivKey)
      requires sender.conn.cfg.codec.initWrite(sender.conn.cfg.key, sender.conn.ivKey) == Some(sender.conn.wState)
      requires sender.conn.conn.conn.outbox == [] && sender.conn.conn.wbuf == pad
      requires Tracks(receiver, |pad|, []) && receiver.given == []
      ensures Valid() && sent == delivered == [] && !failed
      ensures this.sender == sender && this.receiver == receiver
    {
      hide FrameStream, RS.Messages, RS.Payload, RelayFrameConn.Valid, MixLayerAdaptor.Valid, MixLayerAdaptor.Settled, WriterAfter;
      this.sender, this.receiver, this.pad, this.paired := sender, receiver, pad, paired;
      ws, ps := sender.conn.WriterState(), [];
      carried, failed, sent, delivered := 0, false, [], [];
      new;
      NothingSent(Cfg(), ws, sender.crc);
      assert pad + [] == [] + pad == pad;
    }

    /** The client hands over a buffer. Only a failed write below makes the send fail. */
    method Send(data: Bytes, clock: nat -> nat)
      requires Valid() && !failed
      requires |data| <= MAX_WRITE && forall i: nat :: clock(i) < Packet.TWO_64
      modifies this`ps, this`sent, this`failed
      modifies sender.conn`wState, sender.conn`ivKey, sender.conn.conn`wbuf, sender.conn.conn.conn`outbox, sender.conn.conn.conn`faults
      ensures Valid() && sent == old(sent) + data
      ensures sender.conn.Faults() == old(sender.conn.Faults()) + if failed then 1 else 0
      ensures sender.conn.Settled() == old(sender.conn.Settled()) && sender.conn.conn.Arrived() == old(sender.conn.conn.Arrived())
    {
      hide WireOf, FrameStream, WriterAfter, RS.Messages, RS.Payload, Skip, Clean, Deframe, RS.Unpack, TakeFrame, Feed, RS.Consumed, InStep, Paired, NeverRefuses;
      hide MixLayerAdaptor.Valid;
      SenderEncodes();
      var err, more := sender.SendSpecLen(data, clock);
      MoreSent(Cfg(), ws, sender.crc, pad, ps, more);
      assert Outbox()[..carried] == old(Outbox()[..carried]);
      ps, sent := ps + more, sent + data;
      failed := err != None;
    }

    /** The network carries up to `n` more bytes. What was due stays due, and comes first. */
    method Carry(n: nat)
      requires Valid()
      modifies this`carried, receiver.conn.conn.conn`inbox
      ensures Valid() && carried == old(carried) + Min(n, |Outbox()| - old(carried))
      ensures old(receiver.conn.Pending()) <= receiver.conn.Pending()
    {
      hide WireOf, WriterAfter, RS.Messages, RS.Payload, Clean, Deframe, RS.Unpack, TakeFrame, Feed, RS.Consumed, InStep, Paired, AllFit;
      hide MixLayerAdaptor.Valid;
      var out := sender.conn.conn.conn.outbox;
      var next := carried + Min(n, |out| - carried);
      ghost var mix, pc := receiver.conn, receiver.conn.conn;
      ghost var raw := mix.Raw();
      ArrivalExtends(mix.rbuf, pc.rbuf, pc.counter, pc.conn.inbox, out[carried..next]);
      receiver.conn.conn.conn.Arrive(out[carried..next]);
      MoreIsDue(mix.cfg, mix.ReaderState(), mix.decbuf, raw, mix.Raw());
      Assoc(receiver.conn.conn.seen, old(receiver.conn.conn.conn.inbox), out[carried..next]);
      assert out[..carried] + out[carried..next] == out[..next];
      carried := next;
    }

    /** The receiving client reads into a buffer of `size` bytes. Nothing is lost or repeated, a read
        without an error delivers something or consumes an empty packet, the only errors are the
        timeouts and the end of the raw connection, and when a fully carried wire of a sender that did
        not fail has run dry, everything sent has been delivered. */
    method Receive(size: nat) returns (err: Option<NetError>)
      requires Valid() && size >= 1
      modifies this`delivered
      modifies receiver`rbuf, receiver`rdbuf, receiver`eaten, receiver`plain, receiver`given, receiver.rtmp
      modifies receiver.conn`rbuf, receiver.conn`decbuf, receiver.conn`initRead, receiver.conn`rState
      modifies receiver.conn`eaten, receiver.conn`plain, receiver.conn`given, receiver.conn.rtmp
      modifies receiver.conn.conn`rbuf, receiver.conn.conn`counter, receiver.conn.conn`seen, receiver.conn.conn`given
      modifies receiver.conn.conn.conn`inbox, receiver.conn.conn.conn`trouble
      ensures Valid() && old(delivered) <= delivered <= sent
      ensures err == None || err == Some(Timeout) || err == Some(Eof)
      ensures err == None ==> |old(delivered)| < |delivered| || |receiver.Raw()| < |old(receiver.Raw())|
      ensures Reported(err, old(receiver.conn.Trouble()), receiver.conn.Trouble())
      ensures RanDry(err, old(receiver.conn.Trouble()), receiver.conn.Trouble()) && !failed && carried == |Outbox()| ==> delivered == sent
    {
      hide WireOf, WriterAfter, RS.Messages, RS.Payload, Clean, Deframe, RS.Unpack, TakeFrame, Feed, RS.Consumed, InStep, Paired, AllFit;
      hide MixLayerAdaptor.Valid, MixLayerAdaptor.Settled, RelayFrameConn.Pending, RelayFrameConn.IsClean, Skip;
      TracksAccounts(receiver, paired, ws, pad, ps, Outbox()[..carried]);
      var data;
      data, err := ReadSome(receiver, size, |pad|, Outbox()[..carried]);
      TracksAccounts(receiver, paired, ws, pad, ps, Outbox()[..carried]);
      NothingPaid();
      delivered := delivered + data;
    }
  }

  // ---------- both directions ----------

  /** The two directions between two stacks. */
  ghost predicate Duplex<S(!new)>(link: Link<S>, other: Link<S>)
    reads link, link.sender, link.sender.conn, link.sender.conn.conn, link.sender.conn.conn.conn
    reads link.receiver, link.receiver.conn, link.receiver.conn.conn, link.receiver.conn.conn.conn
    reads other, other.sender, other.sender.conn, other.sender.conn.conn, other.sender.conn.conn.conn
    reads other.receiver, other.receiver.conn, other.receiver.conn.conn, other.receiver.conn.conn.conn
  {
    && link != other && link.sender == other.receiver && link.receiver == other.sender
    && link.Valid() && other.Valid()
  }

  /** What the client at the end of a direction may rely on while the other direction moves. */
  method SendOn<S(!new)>(link: Link<S>, other: Link<S>, data: Bytes, clock: nat -> nat)
    requires Duplex(link, other) && !link.failed
    requires |data| <= MAX_WRITE && forall i: nat :: clock(i) < Packet.TWO_64
    modifies link`ps, link`sent, link`failed
    modifies link.sender.conn`wState, link.sender.conn`ivKey, link.sender.conn.conn`wbuf, link.sender.conn.conn.conn`outbox, link.sender.conn.conn.conn`faults
    ensures Duplex(link, other) && link.sent == old(link.sent) + data
    ensures link.sender.conn.Faults() == old(link.sender.conn.Faults()) + if link.failed then 1 else 0
  {
    hide WireOf, FrameStream, WriterAfter, RS.Messages, RS.Payload, Skip, Clean, Deframe, RS.Unpack, TakeFrame, Feed, RS.Consumed, InStep, Paired, AllFit;
    hide MixLayerAdaptor.Valid, MixLayerAdaptor.Settled, RelayFrameConn.Valid;
    link.Send(data, clock);
  }

  method CarryOn<S(!new)>(link: Link<S>, other: Link<S>, n: nat)
    requires Duplex(link, other)
    modifies link`carried, link.receiver.conn.conn.conn`inbox
    ensures Duplex(link, other) && link.carried == old(link.carried) + Min(n, |link.Outbox()| - old(link.carried))
  {
    hide WireOf, FrameStream, WriterAfter, RS.Messages, RS.Payload, Skip, Clean, Deframe, RS.Unpack, TakeFrame, Feed, RS.Consumed, InStep, Paired, AllFit;
    hide MixLayerAdaptor.Valid, RelayFrameConn.Valid;
    link.Carry(n);
  }

  method ReceiveOn<S(!new)>(link: Link<S>, other: Link<S>, size: nat) returns (err: Option<NetError>)
    requires Duplex(link, other) && size >= 1
    modifies link`delivered
    modifies link.receiver`rbuf, link.receiver`rdbuf, link.receiver`eaten, link.receiver`plain, link.receiver`given, link.receiver.rtmp
    modifies link.receiver.conn`rbuf, link.receiver.conn`decbuf, link.receiver.conn`initRead, link.receiver.conn`rState
    modifies link.receiver.conn`eaten, link.receiver.conn`plain, link.receiver.conn`given, link.receiver.conn.rtmp
    modifies link.receiver.conn.conn`rbuf, link.receiver.conn.conn`counter, link.receiver.conn.conn`seen, link.receiver.conn.conn`given
    modifies link.receiver.conn.conn.conn`inbox, link.receiver.conn.conn.conn`trouble
    ensures Duplex(link, other) && old(link.delivered) <= link.delivered <= link.sent
    ensures err == None || err == Some(Timeout) || err == Some(Eof)
    ensures err == None ==> |old(link.delivered)| < |link.delivered| || |link.receiver.Raw()| < |old(link.receiver.Raw())|
    ensures Reported(err, old(link.receiver.conn.Trouble()), link.receiver.conn.Trouble())
    ensures RanDry(err, old(link.receiver.conn.Trouble()), link.receiver.conn.Trouble()) && !link.failed && link.carried == |link.Outbox()|
            ==> link.delivered == link.sent
  {
    hide WireOf, FrameStream, WriterAfter, RS.Messages, RS.Payload, Skip, Clean, Deframe, RS.Unpack, TakeFrame, Feed, RS.Consumed, InStep, Paired, AllFit;
    hide MixLayerAdaptor.Valid, MixLayerAdaptor.Settled, RelayFrameConn.Valid;
    err := link.Receive(size);
  }

  /** What a script asks to be sent in one direction. */
  function SentIn(script: seq<Action>, forth: bool): Bytes {
    if script == [] then []
    else
      var last := script[|script| - 1];
      SentIn(script[..|script| - 1], forth) + if last.Send? && last.forth == forth then last.data else []
  }

  /** The data of exactly the sends in that direction, in their order. */
  lemma {:induction false} SentInIs(script: seq<Action>, more: seq<Action>, data: Bytes, n: nat, forth: bool)
    ensures SentIn(script + more, forth) == SentIn(script, forth) + SentIn(more, forth)
    ensures SentIn([Send(forth, data)], forth) == data && SentIn([Send(!forth, data)], forth) == []
    ensures SentIn([Carry(forth, n)], forth) == SentIn([Receive(forth, n)], forth) == []
  {
    NothingAsked();
    OneAction(Send(forth, data), forth);
    OneAction(Send(!forth, data), forth);
    OneAction(Carry(forth, n), forth);
    OneAction(Receive(forth, n), forth);
    if more == [] {
      assert script + more == script;
    } else {
      var k := |more| - 1;
      SentInIs(script, more[..k], data, n, forth);
      assert (script + more)[..|script| + k] == script + more[..k];
      assert (script + more)[|script| + k] == more[k];
      Assoc(SentIn(script, forth), SentIn(more[..k], forth), if more[k].Send? && more[k].forth == forth then more[k].data else []);
    }
  }

  lemma OneAction(a: Action, forth: bool)
    ensures SentIn([a], forth) == if a.Send? && a.forth == forth then a.data else []
  {
    assert [a][..0] == [];
    assert SentIn([a], forth) == SentIn([a][..0], forth) + if a.Send? && a.forth == forth then a.data else [];
  }

  lemma AskedOneMore(script: seq<Action>, i: nat, forth: bool)
    requires i < |script|
    ensures SentIn(script[..i + 1], forth) ==
            SentIn(script[..i], forth) + if script[i].Send? && script[i].forth == forth then script[i].data else []
    ensures SentIn(script[..i], forth) <= SentIn(script[..i + 1], forth)
  {
    assert script[..i + 1][..i] == script[..i];
  }

  /** The sender of `link` has taken what it was asked to send, until a send failed. */
  ghost predicate Asked<S(!new)>(link: Link<S>, asked: Bytes)
    reads link
  {
    link.sent <= asked && (!link.failed ==> link.sent == asked)
  }

  /** Every object a direction writes is new. */
  twostate predicate AllFresh<S(!new)>(new link: Link<S>) {
    && fresh(link) && fresh(link.sender.conn) && fresh(link.sender.conn.conn) && fresh(link.sender.conn.conn.conn)
    && fresh(link.receiver) && fresh(link.receiver.rtmp) && fresh(link.receiver.conn) && fresh(link.receiver.conn.rtmp)
    && fresh(link.receiver.conn.conn) && fresh(link.receiver.conn.conn.conn)
  }

  /** Two new stacks, joined in both directions. */
  method Open<S(!new)>(cfg: Config<S>, ghost paired: (S, S) -> bool, iv: Bytes, iv': Bytes, crc: Packet.Checksum, pad: Bytes, pad': Bytes)
    returns (forth: Link<S>, back: Link<S>)
    requires Opening(cfg, paired, iv) && Opening(cfg, paired, iv')
    ensures Duplex(forth, back) && AllFresh(forth) && AllFresh(back)
    ensures forth.sent == forth.delivered == back.sent == back.delivered == []
  {
    hide RelayFrameConn.Valid, MixLayerAdaptor.Valid, MixLayerAdaptor.Settled, Paired, InStep, Skip, WireOf, AllFit;
    InitReadCannotFail(cfg, paired, Receiver(cfg), iv);
    InitReadCannotFail(cfg, paired, Receiver(cfg), iv');
    var here := NewStack(cfg, iv, crc, pad, |pad'|);
    var there := NewStack(cfg, iv', crc, pad', |pad|);
    forth := new Link(here, there, paired, pad);
    back := new Link(there, here, paired, pad');
  }

  /** Any run of both directions at once: for every script of sends, deliveries and reads at either end,
      every splitting and merging by the network, every buffer size and timeouts at any point, each end
      takes what it is asked to send until a write fails on its raw connection, what is delivered at the
      other is a prefix of that, and once everything has been carried and nothing is pending, it is all
      of it. */
  method Session<S(!new)>(cfg: Config<S>, ghost paired: (S, S) -> bool, iv: Bytes, iv': Bytes, crc: Packet.Checksum,
                          pad: Bytes, pad': Bytes, script: seq<Action>, clock: nat -> nat)
    returns (forth: Link<S>, back: Link<S>)
    requires Opening(cfg, paired, iv) && Opening(cfg, paired, iv')
    requires forall i: nat :: clock(i) < Packet.TWO_64
    requires forall a :: a in script && a.Send? ==> |a.data| <= MAX_WRITE
    ensures Duplex(forth, back) && AllFresh(forth) && AllFresh(back)
    ensures forth.delivered <= forth.sent <= SentIn(script, true) && back.delivered <= back.sent <= SentIn(script, false)
    ensures forth.sender.conn.Faults() == 0 ==> !forth.failed && forth.sent == SentIn(script, true)
    ensures back.sender.conn.Faults() == 0 ==> !back.failed && back.sent == SentIn(script, false)
    ensures forth.Drained() ==> forth.delivered == forth.sent
    ensures back.Drained() ==> back.delivered == back.sent
  {
    hide Link.Valid, Link.Drained, SentIn;
    forth, back := Open(cfg, paired, iv, iv', crc, pad, pad');
    assert script[..0] == [];
    NothingAsked();
    for i := 0 to |script|
      invariant Duplex(forth, back) && AllFresh(forth) && AllFresh(back)
      invariant Asked(forth, SentIn(script[..i], true)) && Asked(back, SentIn(script[..i], false))
    {
      AskedOneMore(script, i, true);
      AskedOneMore(script, i, false);
      var link, other := if script[i].forth then forth else back, if script[i].forth then back else forth;
      match script[i] {
        case Send(_, data) =>
          PrefixGrows(link.sent, SentIn(script[..i], script[i].forth), data);
          if !link.failed {
            SendOn(link, other, data, clock);
          }
        case Carry(_, n) =>
          CarryOn(link, other, n);
        case Receive(_, size) =>
          if size >= 1 {
            var err := ReceiveOn(link, other, size);
          }
      }
    }
    assert script[..|script|] == script;
    forth.Delivered();
    back.Delivered();
    FailedByFault(forth);
    FailedByFault(back);
  }

  lemma FailedByFault<S(!new)>(link: Link<S>)
    requires link.Valid()
    ensures link.failed ==> link.sender.conn.Faults() > 0
  {
    hide WireOf, WriterAfter, RS.Messages, RS.Payload, Skip, Clean, Deframe, RS.Unpack, TakeFrame, Feed, RS.Consumed, InStep, Paired, AllFit;
  }

  /** The end of a run in one direction: the network carries what is left, and the client reads until an
      error. Unless a send failed or the network stalls, everything sent has then been delivered. */
  method Finish<S(!new)>(link: Link<S>, other: Link<S>, size: nat)
    requires Duplex(link, other) && size >= 1
    modifies link`carried, link`delivered
    modifies link.receiver`rbuf, link.receiver`rdbuf, link.receiver`eaten, link.receiver`plain, link.receiver`given, link.receiver.rtmp
    modifies link.receiver.conn`rbuf, link.receiver.conn`decbuf, link.receiver.conn`initRead, link.receiver.conn`rState
    modifies link.receiver.conn`eaten, link.receiver.conn`plain, link.receiver.conn`given, link.receiver.conn.rtmp
    modifies link.receiver.conn.conn`rbuf, link.receiver.conn.conn`counter, link.receiver.conn.conn`seen, link.receiver.conn.conn`given
    modifies link.receiver.conn.conn.conn`inbox, link.receiver.conn.conn.conn`trouble
    ensures Duplex(link, other) && link.delivered <= link.sent
    ensures old(link.receiver.conn.Trouble().stalls) <= link.receiver.conn.Trouble().stalls
    ensures !link.failed && link.receiver.conn.Trouble().stalls == old(link.receiver.conn.Trouble().stalls) ==> link.delivered == link.sent
  {
    hide Duplex, RelayFrameConn.Raw;
    CarryAll(link, other);
    var err := None;
    while err == None
      invariant Duplex(link, other) && link.carried == |link.Outbox()| && link.delivered <= link.sent
      invariant err == None ==> link.receiver.conn.Trouble().stalls == old(link.receiver.conn.Trouble().stalls)
      invariant old(link.receiver.conn.Trouble().stalls) <= link.receiver.conn.Trouble().stalls
      invariant err != None && !link.failed && link.receiver.conn.Trouble().stalls == old(link.receiver.conn.Trouble().stalls) ==> link.delivered == link.sent
      decreases err == None, |link.sent| - |link.delivered|, |link.receiver.Raw()|
    {
      err := ReceiveOn(link, other, size);
    }
  }

  method CarryAll<S(!new)>(link: Link<S>, other: Link<S>)
    requires Duplex(link, other)
    modifies link`carried, link.receiver.conn.conn.conn`inbox
    ensures Duplex(link, other) && link.carried == |link.Outbox()| && link.delivered <= link.sent
  {
    hide WireOf, FrameStream, WriterAfter, RS.Messages, RS.Payload, Skip, Clean, Deframe, RS.Unpack, TakeFrame, Feed, RS.Consumed, InStep, Paired, AllFit;
    hide MixLayerAdaptor.Valid, RelayFrameConn.Valid;
    CarryOn(link, other, |link.sender.conn.conn.conn.outbox|);
    link.Delivered();
  }

  /** A run and its end, in both directions: if no write failed and no read stalled, everything the script
      asked to be sent, in either direction, has been delivered at the other end. */
  method Conversation<S(!new)>(cfg: Config<S>, ghost paired: (S, S) -> bool, iv: Bytes, iv': Bytes, crc: Packet.Checksum,
                               pad: Bytes, pad': Bytes, script: seq<Action>, clock: nat -> nat, size: nat)
    returns (forth: Link<S>, back: Link<S>)
    requires Opening(cfg, paired, iv) && Opening(cfg, paired, iv') && size >= 1
    requires forall i: nat :: clock(i) < Packet.TWO_64
    requires forall a :: a in script && a.Send? ==> |a.data| <= MAX_WRITE
    ensures forth.delivered <= SentIn(script, true) && back.delivered <= SentIn(script, false)
    ensures forth.sender.conn.Faults() == 0 && forth.receiver.conn.Trouble().stalls == 0 ==> forth.delivered == SentIn(script, true)
    ensures back.sender.conn.Faults() == 0 && back.receiver.conn.Trouble().stalls == 0 ==> back.delivered == SentIn(script, false)
  {
    hide Link.Valid, Link.Drained, SentIn;
    forth, back := Session(cfg, paired, iv, iv', crc, pad, pad', script, clock);
    Finish(forth, back, size);
    Finish(back, forth, size);
  }

  lemma NothingAsked()
    ensures SentIn([], true) == SentIn([], false) == []
  {
  }
}
