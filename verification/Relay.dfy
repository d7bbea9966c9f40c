/** The relay packet connection (wcf/relay/wrap_frame_conn.go) over the mix layer, proved against
    `RelayStream`. */
module Relay {
  import opened Octets
  import opened MixStream
  import opened MixLayer
  import opened Exchange
  import Packet
  import RS = RelayStream

  class RelayFrameConn<S> {
    const conn: MixLayerAdaptor<S>
    const crc: Packet.Checksum
    const rtmp: array<byte>
    var rbuf: Bytes
    var wbuf: Bytes
    var rdbuf: Bytes

    // History: where in the connection below this layer started, the packet bytes consumed, the
    // data they carried, and how much of it has been handed on.
    ghost const base: nat
    ghost const spare: Bytes
    ghost var eaten: Bytes
    ghost var plain: Bytes
    ghost var given: Bytes

    /** While the layer below decodes: the bytes taken are the consumed packets, then `rbuf`; their
        data is what was handed on, then `rdbuf`. */
    ghost predicate Valid()
      reads this, conn, conn.conn
    {
      && rtmp.Length == Packet.MAX_BYTE_PER_PACKET && conn.Valid() && rtmp != conn.rtmp
      && RS.Consumed(crc, eaten, plain) && plain == given + rdbuf
      && base <= |conn.given|
      && (conn.enableDecode ==> spare + conn.given[base..] == eaten + rbuf)
    }

    /** Packet bytes, buffered or still below. */
    ghost function Raw(): Bytes
      reads this, conn, conn.conn.Repr()
    {
      rbuf + conn.Pending()
    }

    /** The bytes this layer will deliver. */
    ghost function Pending(): Bytes
      reads this, conn, conn.conn.Repr()
    {
      rdbuf + RS.Unpack(crc, Raw())
    }

    ghost predicate IsClean()
      reads this, conn, conn.conn.Repr()
    {
      RS.Clean(crc, Raw()) && conn.Healthy()
    }

    /** `WrapRelayFrameConn`: the bytes already read by the handshake come first. */
    constructor WrapRelayFrameConn(conn: MixLayerAdaptor<S>, crc: Packet.Checksum, rbuf: Bytes, wbuf: Bytes)
      requires conn.Valid()
      ensures Valid() && fresh(rtmp) && this.conn == conn && this.crc == crc
      ensures this.rbuf == rbuf && this.wbuf == wbuf && rdbuf == []
      ensures base == |conn.given| && spare == rbuf && given == []
      ensures Raw() == rbuf + conn.Pending() && Pending() == RS.Unpack(crc, rbuf + conn.Pending())
      ensures conn.Raw() == old(conn.Raw()) && conn.Pending() == old(conn.Pending()) && conn.Healthy() == old(conn.Healthy())
    {
      hide RS.Unpack, MixStream.Deframe, MixStream.Clean, TakeFrame, MixStream.Feed, RS.Consumed;
      this.conn, this.crc, this.rbuf, this.wbuf, rdbuf := conn, crc, rbuf, wbuf, [];
      rtmp := new byte[Packet.MAX_BYTE_PER_PACKET](_ => 0);
      base, spare, eaten, plain, given := |conn.given|, rbuf, [], [], [];
      RS.NothingConsumed(crc);
      assert rbuf + conn.given[|conn.given|..] == [] + rbuf;
    }

    /** `Read`, on any stream and under any chunking: the bytes returned are the next ones due, and
        an error costs none. It panics only, and but for other errors always, where a packet of length
        zero is next. On a clean stream only timeouts and the end of the wire are errors,
        and at the end of the wire everything has been delivered. A successful read of nothing
        happens only for an empty packet, and consumes it. With nothing unpacked, the packet at the head
        of the stream decides whether there is an error of the stream, unless the network stalls. */
    method Read(b: array<byte>, off: nat) returns (n: nat, err: Option<NetError>)
      requires Valid() && off < b.Length && b != rtmp && b != conn.rtmp
      modifies this`rbuf, this`rdbuf, this`eaten, this`plain, this`given, rtmp, b
      modifies conn`rbuf, conn`decbuf, conn`initRead, conn`rState, conn`eaten, conn`plain, conn`given, conn.rtmp
      modifies conn.conn`rbuf, conn.conn`counter, conn.conn`seen, conn.conn`given, conn.conn.conn`inbox, conn.conn.conn`trouble
      ensures conn.conn.Arrived() == old(conn.conn.Arrived())
      ensures Valid()
      ensures off + n <= b.Length && n <= |old(Pending())|
      ensures b[..off] == old(b[..off]) && b[off..off + n] == old(Pending())[..n]
      ensures given == old(given) + b[off..off + n]
      ensures Pending() == old(Pending())[n..]
      ensures err != None ==> n == 0
      ensures err == None && n == 0 ==> |Raw()| < |old(Raw())|
      ensures old(rdbuf) != [] ==> err == None && n >= 1
      ensures old(rdbuf) == [] && (err == None || old(conn.Healthy())) ==>
                RS.Outcome(RS.TakePacket(crc, old(Raw())), err) || Stalled(err, old(conn.Trouble()), conn.Trouble())
      ensures err == Some(Panicked) ==> old(rdbuf == [] && Packet.ZeroLength(Raw()))
      ensures old(rdbuf == [] && Packet.ZeroLength(Raw())) ==> err != None && (old(conn.Healthy()) ==> err == Some(Panicked) || Stalled(err, old(conn.Trouble()), conn.Trouble()))
      ensures |Raw()| <= |old(Raw())|
      ensures Reported(err, old(conn.Trouble()), conn.Trouble())
      ensures old(IsClean()) ==>
                && IsClean()
                && (err == None || err == Some(Timeout) || err == Some(Eof))
                && (RanDry(err, old(conn.Trouble()), conn.Trouble()) ==> Pending() == [])
    {
      hide RS.Unpack, RS.Clean, RS.TakePacket, MixStream.Deframe, MixStream.Feed, RS.Consumed, Packet.ZeroLength;
      if |rdbuf| == 0 {
        err := Refill();
        if err != None {
          return 0, err;
        }
      }
      n := Serve(b, off);
      err := None;
    }

    /** Hand out what is unpacked; nothing, if the packet just taken was empty. */
    method Serve(b: array<byte>, off: nat) returns (n: nat)
      requires Valid() && off < b.Length && b != rtmp && b != conn.rtmp
      modifies this`rdbuf, this`given, b
      ensures Valid() && Raw() == old(Raw())
      ensures off + n <= b.Length && n <= |old(Pending())|
      ensures b[..off] == old(b[..off]) && b[off..off + n] == old(Pending())[..n]
      ensures given == old(given) + b[off..off + n]
      ensures Pending() == old(Pending())[n..]
      ensures n == 0 ==> old(rdbuf) == []
    {
      hide RS.Unpack, RS.Consumed, MixStream.Feed;
      n := Min(|rdbuf|, b.Length - off);
      TakeFront(rdbuf, RS.Unpack(crc, Raw()), n);
      Assoc(given, rdbuf[..n], rdbuf[n..]);
      CopyInto(b, off, rdbuf[..n]);
      given := given + rdbuf[..n];
      rdbuf := rdbuf[n..];
    }

    /** The loop of `Read`, then the packet it found. */
    method Refill() returns (err: Option<NetError>)
      requires Valid() && rdbuf == []
      modifies this`rbuf, this`rdbuf, this`eaten, this`plain, rtmp
      modifies conn`rbuf, conn`decbuf, conn`initRead, conn`rState, conn`eaten, conn`plain, conn`given, conn.rtmp
      modifies conn.conn`rbuf, conn.conn`counter, conn.conn`seen, conn.conn`given, conn.conn.conn`inbox, conn.conn.conn`trouble
      ensures conn.conn.Arrived() == old(conn.conn.Arrived())
      ensures Valid() && Pending() == old(Pending())
      ensures err == None ==> |Raw()| < |old(Raw())|
      ensures err == None || old(conn.Healthy()) ==>
                RS.Outcome(RS.TakePacket(crc, old(Raw())), err) || Stalled(err, old(conn.Trouble()), conn.Trouble())
      ensures err == Some(Panicked) ==> old(Packet.ZeroLength(Raw()))
      ensures old(Packet.ZeroLength(Raw())) ==> err != None && (old(conn.Healthy()) ==> err == Some(Panicked) || Stalled(err, old(conn.Trouble()), conn.Trouble()))
      ensures |Raw()| <= |old(Raw())|
      ensures Reported(err, old(conn.Trouble()), conn.Trouble())
      ensures old(IsClean()) ==>
                && IsClean()
                && (err == None || err == Some(Timeout) || err == Some(Eof))
                && (RanDry(err, old(conn.Trouble()), conn.Trouble()) ==> Pending() == [])
    {
      hide Packet.ZeroLength, MixLayerAdaptor.Valid, MixStream.Deframe, MixStream.Clean, TakeFrame;
      hide RS.Unpack, RS.Clean, MixStream.Feed, RS.Consumed;
      var total, cerr := Fill();
      RS.TakeIsLocal(crc, rbuf, conn.Pending());
      if cerr != None {
        if conn.Pending() == [] && RS.TakePacket(crc, rbuf) == RS.Wait {
          assert Raw() == rbuf;
          RS.NothingDue(crc, rbuf);
        }
        if RS.TakePacket(crc, rbuf) == RS.Reject { RS.TakeStep(crc, rbuf, conn.Pending()); }
        return cerr;
      }
      err := TakePacket(total);
    }

    /** A complete packet leaves `rbuf` for good, and its data, if it checks, becomes due. */
    method TakePacket(total: nat) returns (err: Option<NetError>)
      requires Valid() && rdbuf == []
      requires total <= |rbuf| && RS.TakePacket(crc, rbuf) == RS.Accept(total, Packet.GetData(crc, rbuf[..total]))
      modifies this`rbuf, this`rdbuf, this`eaten, this`plain
      ensures Valid() && Pending() == old(Pending())
      ensures |Raw()| < |old(Raw())|
      ensures RS.Outcome(RS.TakePacket(crc, old(rbuf)), err)
      ensures old(RS.Clean(crc, Raw())) ==> RS.Clean(crc, Raw()) && err == None
    {
      hide MixLayerAdaptor.Valid, MixStream.Deframe;
      hide RS.Unpack, RS.Clean, RS.Consumed;
      RS.TakeStep(crc, rbuf, conn.Pending());
      RS.ConsumeOneMore(crc, eaten, plain, rbuf);
      ghost var p, rest := rbuf[..total], rbuf[total..];
      Assoc(eaten, p, rest);
      assert p + rest == rbuf;
      var raw := Packet.GetData(crc, rbuf[..total]);
      eaten, plain := eaten + p, plain + OrEmpty(raw);
      rbuf := rbuf[total..];
      if raw == None {
        return Some(Protocol);
      }
      rdbuf := raw.value;
      return None;
    }

    /** Fetch until the check has an opinion. It ends because a buffer that waits for a packet is shorter
        than the largest one. */
    method Fill() returns (total: nat, cerr: Option<NetError>)
      requires Valid()
      modifies this`rbuf, rtmp
      modifies conn`rbuf, conn`decbuf, conn`initRead, conn`rState, conn`eaten, conn`plain, conn`given, conn.rtmp
      modifies conn.conn`rbuf, conn.conn`counter, conn.conn`seen, conn.conn`given, conn.conn.conn`inbox, conn.conn.conn`trouble
      ensures conn.conn.Arrived() == old(conn.conn.Arrived())
      ensures Valid() && Raw() == old(Raw())
      ensures cerr == None ==> total <= |rbuf| && RS.TakePacket(crc, rbuf) == RS.Accept(total, Packet.GetData(crc, rbuf[..total]))
      ensures cerr != None ==> RS.TakePacket(crc, rbuf) == RS.Wait || RS.TakePacket(crc, rbuf) == RS.Reject
      ensures RS.TakePacket(crc, rbuf) == RS.Reject ==> cerr == Some(Protocol) || cerr == Some(Panicked)
      ensures cerr == Some(Panicked) ==> Packet.ZeroLength(Raw())
      ensures Packet.ZeroLength(Raw()) ==> cerr != None && (old(conn.Healthy()) ==> cerr == Some(Panicked) || Stalled(cerr, old(conn.Trouble()), conn.Trouble()))
      ensures Reported(cerr, old(conn.Trouble()), conn.Trouble())
      ensures old(conn.Healthy()) ==>
                && conn.Healthy()
                && (cerr != None && RS.TakePacket(crc, rbuf) == RS.Wait ==> cerr == Some(Timeout) || cerr == Some(Eof))
                && (RanDry(cerr, old(conn.Trouble()), conn.Trouble()) ==> conn.Pending() == [])
    {
      hide MixLayerAdaptor.Valid, MixLayerAdaptor.Healthy;
      hide MixStream.Deframe, MixStream.Clean, MixStream.Feed, RS.Consumed, RS.TakePacket, Packet.CheckReadyWithLength, Packet.ZeroLength;
      total := 0;
      while true
        invariant Valid() && Raw() == old(Raw()) && conn.conn.Arrived() == old(conn.conn.Arrived())
        invariant old(conn.Healthy()) ==> conn.Healthy()
        invariant conn.Trouble() == old(conn.Trouble())
        decreases Packet.MAX_BYTE_PER_PACKET - |rbuf|
      {
        RS.TakeByCheck(crc, rbuf);
        Packet.PanicsByPart(rbuf, conn.Pending(), Packet.MAX_BYTE_PER_PACKET);
        match Packet.CheckReady(rbuf) {
          case Bad(_) => return 0, Some(Protocol);
          case Crash => return 0, Some(Panicked);
          case Ready(n) => return n, None;
          case NeedMore =>
        }
        Packet.WaitingIsShort(rbuf, Packet.MAX_BYTE_PER_PACKET);
        cerr := Fetch();
        if cerr != None {
          return;
        }
      }
    }

    /** One read below, appended to `rbuf`. */
    method Fetch() returns (err: Option<NetError>)
      requires Valid()
      modifies this`rbuf, rtmp
      modifies conn`rbuf, conn`decbuf, conn`initRead, conn`rState, conn`eaten, conn`plain, conn`given, conn.rtmp
      modifies conn.conn`rbuf, conn.conn`counter, conn.conn`seen, conn.conn`given, conn.conn.conn`inbox, conn.conn.conn`trouble
      ensures conn.conn.Arrived() == old(conn.conn.Arrived())
      ensures Valid() && Raw() == old(Raw())
      ensures err == None ==> |old(rbuf)| < |rbuf|
      ensures err != None ==> rbuf == old(rbuf)
      ensures err != Some(Panicked) && Reported(err, old(conn.Trouble()), conn.Trouble())
      ensures old(conn.Healthy()) ==>
                && conn.Healthy()
                && (err == None || err == Some(Timeout) || err == Some(Eof))
                && (RanDry(err, old(conn.Trouble()), conn.Trouble()) ==> conn.Pending() == [])
    {
      hide MixLayerAdaptor.Books, MixLayerAdaptor.FirstIsCertain, MixLayerAdaptor.FirstIsDisputed, Untouched, Skip;
      hide MixStream.Deframe, MixStream.Clean, MixStream.Feed, RS.Consumed, TakeFrame;
      ghost var held, before, due := rbuf, conn.given, conn.Pending();
      var cnt, e := conn.Read(rtmp, 0);
      err := e;
      ghost var got := rtmp[0..0 + cnt];
      assert rtmp[..cnt] == got;
      assert due == got + conn.Pending();
      Assoc(held, got, conn.Pending());
      Assoc(eaten, held, got);
      Assoc(spare, before[base..], got);
      if conn.enableDecode { SpareIsTheRest(before, got, base); }
      if err != None {
        assert held + got == held;
        return;
      }
      rbuf := rbuf + rtmp[..cnt];
    }

    /** `Write`, the clock reading given. */
    method Write(b: Bytes, ts: nat) returns (n: nat, err: Option<NetError>)
      requires Valid()
      modifies conn`wState, conn`ivKey, conn.conn`wbuf, conn.conn.conn`outbox, conn.conn.conn`faults
      ensures Valid()
      ensures n == if err == None then RS.Cut(|b|) else 0
      ensures var (next, bytes) := Emit(conn.cfg, conn.enableEncode, old(conn.WriterState()), Packet.Build(crc, b[..RS.Cut(|b|)], ts));
              && (err == None ==> conn.Out() == old(conn.Out()) + bytes && conn.WriterState() == next)
              && old(conn.Wire()) <= conn.Wire() <= old(conn.Out()) + bytes
      ensures Raw() == old(Raw()) && Pending() == old(Pending()) && IsClean() == old(IsClean())
      ensures conn.Settled() == old(conn.Settled()) && conn.conn.Arrived() == old(conn.conn.Arrived())
      ensures old(conn.Encodes()) ==> conn.Encodes() && conn.Faults() == old(conn.Faults()) + if err == None then 0 else 1
      ensures conn.conn.wbuf == [] || (conn.conn.wbuf == old(conn.conn.wbuf) && err != None)
    {
      hide MixLayerAdaptor.Encodes, MixLayerAdaptor.Valid, MixStream.Feed, RS.Consumed, MixStream.Deframe, MixStream.Clean, TakeFrame, RS.Unpack, RS.Clean;
      var data := b;
      if |b| > 4 * Packet.MAX_BYTE_PER_PACKET / 5 {
        data := b[..|b| * 4 / 5];
      }
      assert data == b[..RS.Cut(|b|)];
      var pkt := Packet.BuildDataPacket(crc, data, ts);
      err := conn.SendSpecLen(pkt[..]);
      n := if err == None then |data| else 0;
    }

    /** `net_utils.SendSpecLen` over this connection; the i-th `Write` reads `clock(i)`. Either the
        packets sent carry exactly the buffer, or the wire holds a prefix of such packets. */
    method SendSpecLen(buf: Bytes, clock: nat -> nat) returns (err: Option<NetError>, ghost sent: seq<RS.Sent>)
      requires Valid() && conn.enableEncode
      modifies conn`wState, conn`ivKey, conn.conn`wbuf, conn.conn.conn`outbox, conn.conn.conn`faults
      ensures Valid()
      ensures err == None ==>
                && RS.Payload(sent) == buf
                && conn.Out() == old(conn.Out()) + FrameStream(conn.cfg, old(conn.WriterState()), RS.Messages(crc, sent))
                && conn.WriterState() == WriterAfter(conn.cfg, old(conn.WriterState()), RS.Messages(crc, sent))
      ensures RS.Payload(sent) <= buf
      ensures old(conn.Wire()) <= conn.Wire() <= old(conn.Out()) + FrameStream(conn.cfg, old(conn.WriterState()), RS.Messages(crc, sent))
      ensures |buf| <= 40927 && (forall i: nat :: clock(i) < Packet.TWO_64) ==> forall p :: p in sent ==> RS.Fits(crc, p)
      ensures Raw() == old(Raw()) && Pending() == old(Pending()) && IsClean() == old(IsClean())
      ensures conn.Settled() == old(conn.Settled()) && conn.conn.Arrived() == old(conn.conn.Arrived())
      ensures old(conn.Encodes()) ==> conn.Encodes() && conn.Faults() == old(conn.Faults()) + if err == None then 0 else 1
      ensures err == None && sent != [] ==> conn.conn.wbuf == []
      ensures err == None && sent == [] ==> buf == [] && conn.conn.wbuf == old(conn.conn.wbuf)
    {
      hide MixLayerAdaptor.Encodes, MixLayerAdaptor.Settled, MixLayerAdaptor.Raw, MixLayerAdaptor.Pending, MixLayerAdaptor.Healthy;
      hide RelayFrameConn.Valid, RelayFrameConn.Raw, RelayFrameConn.Pending, RelayFrameConn.IsClean;
      hide MixLayerAdaptor.Valid, MixStream.Feed, RS.Consumed, FrameStream, WriterAfter, RS.Messages, RS.Payload, RS.Fits, RS.Cut, Emit, Packet.Build;
      ghost var ws, out := conn.WriterState(), conn.Out();
      var index, i := 0, 0;
      sent := [];
      NothingSent(conn.cfg, ws, crc);
      while index < |buf|
        invariant 0 <= index <= |buf|
        invariant Valid() && RS.Payload(sent) == buf[..index] && old(conn.Wire()) <= conn.Wire()
        invariant old(conn.Encodes()) ==> conn.Encodes() && conn.Faults() == old(conn.Faults())
        invariant sent == [] || conn.conn.wbuf == []
        invariant sent == [] ==> index == 0 && conn.conn.wbuf == old(conn.conn.wbuf)
        invariant Raw() == old(Raw()) && Pending() == old(Pending()) && IsClean() == old(IsClean())
        invariant conn.Settled() == old(conn.Settled()) && conn.conn.Arrived() == old(conn.conn.Arrived())
        invariant conn.Out() == out + FrameStream(conn.cfg, ws, RS.Messages(crc, sent))
        invariant conn.WriterState() == WriterAfter(conn.cfg, ws, RS.Messages(crc, sent))
        invariant |buf| <= 40927 && (forall i: nat :: clock(i) < Packet.TWO_64) ==> forall p :: p in sent ==> RS.Fits(crc, p)
      {
        ghost var rest := buf[index..];
        ghost var piece := RS.Sent(rest[..RS.Cut(|rest|)], clock(i));
        OneMoreSent(conn.cfg, ws, crc, sent, piece);
        if |buf| <= 40927 && clock(i) < Packet.TWO_64 { RS.CutFits(crc, rest, clock(i)); }
        ghost var before := FrameStream(conn.cfg, ws, RS.Messages(crc, sent));
        Assoc(out, before, Emit(conn.cfg, true, conn.WriterState(), Packet.Build(crc, piece.data, piece.ts)).1);
        assert buf[..index] + piece.data == buf[..index + |piece.data|];
        CutProgress(|rest|);
        sent := sent + [piece];
        var cur, e := Write(buf[index..], clock(i));
        if e != None {
          return e, sent;
        }
        index, i := index + cur, i + 1;
      }
      err := None;
      assert buf[..index] == buf;
      PrefixGrows(conn.Wire(), conn.Wire(), conn.conn.wbuf);
    }
  }

  lemma SpareIsTheRest(held: Bytes, below: Bytes, n: nat)
    requires n <= |held|
    ensures (held + below)[n..] == held[n..] + below
  {
  }

  lemma CutProgress(n: nat)
    requires n > 0
    ensures 1 <= RS.Cut(n) <= n
  {
  }

  lemma NothingSent<S>(cfg: Config<S>, ws: Writer<S>, crc: Packet.Checksum)
    ensures FrameStream(cfg, ws, RS.Messages(crc, [])) == [] && WriterAfter(cfg, ws, RS.Messages(crc, [])) == ws
    ensures RS.Payload([]) == []
  {
  }

  /** Sending one more packet extends the frames of the history by the packet's own. */
  lemma OneMoreSent<S>(cfg: Config<S>, ws: Writer<S>, crc: Packet.Checksum, sent: seq<RS.Sent>, p: RS.Sent)
    ensures var ms, ms' := RS.Messages(crc, sent), RS.Messages(crc, sent + [p]);
            var (next, bytes) := Emit(cfg, true, WriterAfter(cfg, ws, ms), Packet.Build(crc, p.data, p.ts));
            && FrameStream(cfg, ws, ms') == FrameStream(cfg, ws, ms) + bytes
            && WriterAfter(cfg, ws, ms') == next
    ensures RS.Payload(sent + [p]) == RS.Payload(sent) + p.data
  {
    hide Packet.Build;
    var one := [p];
    assert one[1..] == [];
    RS.MessagesAppend(crc, sent, one);
    assert RS.Messages(crc, one) == MixStream.Split(Packet.Build(crc, p.data, p.ts));
    FrameStreamAppend(cfg, ws, RS.Messages(crc, sent), RS.Messages(crc, one));
    FramesAppend(cfg, ws, RS.Messages(crc, sent), RS.Messages(crc, one));
    RS.PacketsAppend(crc, sent, one);
    assert RS.Payload(one) == p.data;
  }
}
