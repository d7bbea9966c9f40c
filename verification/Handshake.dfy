/** The relay handshake on both sides (wcf/relay/relay_acceptor.go, wcf/relay/relay_connector.go):
    read one packet into a fixed buffer, judge it, and hand every byte after it to the packet
    connection; or give the whole connection back undecoded. */
module Handshake {
  import opened Octets
  import opened MixStream
  import opened MixLayer
  import opened Relay
  import opened Exchange
  import Codec
  import Frame
  import Packet
  import RS = RelayStream

  datatype AuthReq = AuthReq(user: Bytes, pwd: Bytes, name: Bytes, port: nat)

  /** The parts of the acceptor that are calls into other code: the auth message parser, the
      password check, the checksum and the message lifetime in milliseconds (0 for none). */
  datatype Acceptor = Acceptor(
    crc: Packet.Checksum,
    parseAuth: Bytes -> Option<AuthReq>,
    onAuth: (Bytes, Bytes) -> bool,
    alive: nat
  )

  const AUTH_OK: nat := 0
  const AUTH_USER_PWD_INVALID: nat := 10000
  const AUTH_INVALID_ADDRESS: nat := 10001

  const HANDSHAKE_BUFFER: nat := 1024

  /** What the acceptor makes of the decoded byte stream `w`; on some streams its packet check panics. */
  datatype Verdict = MoreNeeded | Malformed | Panics | Deny(code: nat) | Admit(total: nat, req: AuthReq)

  function Judge(a: Acceptor, w: Bytes, now: nat): (v: Verdict)
    ensures v.Admit? ==> v.total <= |w|
  {
    match Packet.CheckReadyWithLength(w, Packet.MAX_BYTE_AUTH_PACKET) {
      case NeedMore => MoreNeeded
      case Ready(n) =>
        var raw := Packet.GetDataCheckTs(a.crc, w[..n], a.alive, now);
        if raw == None || a.parseAuth(raw.value) == None then Malformed
        else
          var req := a.parseAuth(raw.value).value;
          if !a.onAuth(req.user, req.pwd) then Deny(AUTH_USER_PWD_INVALID)
          else if |req.name| == 0 || req.port == 0 then Deny(AUTH_INVALID_ADDRESS)
          else Admit(n, req)
      case Bad(_) => Malformed
      case Crash => Panics
    }
  }

  /** The acceptor panics exactly on streams that start with a packet of length zero. */
  lemma JudgePanicsIff(a: Acceptor, w: Bytes, now: nat)
    ensures Judge(a, w, now) == Panics <==> Packet.ZeroLength(w)
  {
    hide Packet.ZeroLength, Packet.CheckReadyWithLength;
    Packet.PanicsIffZeroLength(w, Packet.MAX_BYTE_AUTH_PACKET);
  }

  /** `BuildAuthRspMsg`. */
  function AuthRsp(result: nat, token: nat): Bytes {
    [0x08] + Packet.Varint(result) + [0x10] + Packet.Varint(token)
  }

  /** The fields of AuthMsgRsp in msg.proto, both varints; for instance a refused password. */
  lemma AuthRspIs(result: nat, token: nat)
    ensures AuthRsp(result, token) == [1 * 8 + 0] + Packet.Varint(result) + [2 * 8 + 0] + Packet.Varint(token)
    ensures AuthRsp(10000, 7) == [0x08, 0x90, 0x4E, 0x10, 7]
  {
    assert Packet.Varint(10000) == [10000 % 128 + 128] + Packet.Varint(78);
  }

  /** The parser of AuthMsgRsp, whose integers go by value. */
  function ParseAuthRsp(b: Bytes): Option<(int, nat)> {
    var r := RspFields(b, (0, 0));
    if r == None then None else Some((Signed32(r.value.0), r.value.1 % Packet.TWO_32))
  }

  /** A varint read as an int32. */
  function Signed32(n: nat): int {
    if n % Packet.TWO_32 < Packet.TWO_32 / 2 then n % Packet.TWO_32 else n % Packet.TWO_32 - Packet.TWO_32
  }

  /** The two fields as they are met, the last of each; others are skipped. */
  function RspFields(b: Bytes, acc: (nat, nat)): Option<(nat, nat)>
    decreases |b|
  {
    if b == [] then Some(acc)
    else
      match Packet.ReadVarint(b, 10)
      case None => None
      case Some((tag, k)) =>
        if tag / 8 == 0 then None
        else
          match Packet.Field(b[k..], tag % 8)
          case None => None
          case Some((v, raw, used)) =>
            RspFields(b[k + used..], if tag == 0x08 then (v, acc.1) else if tag == 0x10 then (acc.0, v) else acc)
  }

  lemma NumberStep(tag: byte, n: nat, rest: Bytes, acc: (nat, nat))
    requires (tag == 0x08 || tag == 0x10) && n < Packet.TWO_64
    ensures RspFields([tag] + (Packet.Varint(n) + rest), acc) == RspFields(rest, if tag == 0x08 then (n, acc.1) else (acc.0, n))
  {
    hide Packet.ReadVarint, Packet.Varint, Packet.Field;
    var b, v := [tag] + (Packet.Varint(n) + rest), Packet.Varint(n);
    Packet.BehindTag(tag, v, rest);
    Packet.OneByteVarint(b, 10);
    Packet.NumberField(n, rest);
  }

  /** Reading back an auth reply: result and token, in their places. */
  lemma AuthRspReadBack(result: nat, token: nat)
    requires result < 0x8000_0000 && token < Packet.TWO_32
    ensures ParseAuthRsp(AuthRsp(result, token)) == Some((result, token))
  {
    hide RspFields, Packet.Varint;
    var behind := [0x10] + (Packet.Varint(token) + []);
    assert AuthRsp(result, token) == [0x08] + (Packet.Varint(result) + behind);
    NumberStep(0x08, result, behind, (0, 0));
    NumberStep(0x10, token, [], (result, 0));
    NothingToRead((result, token));
  }

  lemma NothingToRead(acc: (nat, nat))
    ensures RspFields([], acc) == Some(acc)
  {
  }

  /** The shared read loop: at most one packet's worth of reads, never past the buffer, and every
      byte read is accounted for. */
  method ReadPacket<S>(conn: MixLayerAdaptor<S>, buf: array<byte>) returns (index: nat, ckResult: Packet.Check, err: Option<NetError>)
    requires conn.Valid() && buf.Length == HANDSHAKE_BUFFER && buf != conn.rtmp
    modifies buf, conn`rbuf, conn`decbuf, conn`initRead, conn`rState, conn`eaten, conn`plain, conn`given, conn.rtmp
    modifies conn.conn`rbuf, conn.conn`counter, conn.conn`seen, conn.conn`given, conn.conn.conn`inbox, conn.conn.conn`trouble
    ensures conn.Valid()
    ensures index <= HANDSHAKE_BUFFER && buf[..index] + conn.Pending() == old(conn.Pending())
    ensures err == None ==> ckResult != Packet.NeedMore && ckResult == Packet.CheckReadyWithLength(buf[..index], Packet.MAX_BYTE_AUTH_PACKET)
    ensures err != None ==> Packet.CheckReadyWithLength(buf[..index], Packet.MAX_BYTE_AUTH_PACKET) == Packet.NeedMore
    ensures conn.enableDecode ==> Untouched(conn.cfg, conn.initRead, conn.eaten, conn.Raw(), old(conn.initRead), old(conn.eaten), old(conn.Raw()))
    ensures Reported(err, old(conn.Trouble()), conn.Trouble())
    ensures old(conn.FirstIsCertain()) ==> conn.initRead || Stalled(err, old(conn.Trouble()), conn.Trouble())
    ensures old(conn.Healthy()) ==>
              && conn.Healthy()
              && (err == None || err == Some(Timeout) || err == Some(Eof))
              && (RanDry(err, old(conn.Trouble()), conn.Trouble()) ==> conn.Pending() == [])
  {
    hide MixLayerAdaptor.Valid, MixLayerAdaptor.Healthy, MixLayerAdaptor.Pending, MixLayerAdaptor.Raw, MixLayerAdaptor.Settled;
    hide Opens, OpensKeyed, Packet.CheckReadyWithLength;
    index, ckResult := 0, Packet.NeedMore;
    NothingReadYet(buf[..0]);
    while index < HANDSHAKE_BUFFER
      invariant index < Packet.MAX_BYTE_AUTH_PACKET
      invariant conn.Valid() && buf[..index] + conn.Pending() == old(conn.Pending())
      invariant Packet.CheckReadyWithLength(buf[..index], Packet.MAX_BYTE_AUTH_PACKET) == Packet.NeedMore
      invariant conn.enableDecode ==> Untouched(conn.cfg, conn.initRead, conn.eaten, conn.Raw(), old(conn.initRead), old(conn.eaten), old(conn.Raw()))
      invariant old(conn.FirstIsCertain()) ==> conn.enableDecode && (conn.initRead || conn.FirstIsCertain())
      invariant old(conn.Healthy()) ==> conn.Healthy()
      invariant conn.Trouble() == old(conn.Trouble())
      decreases HANDSHAKE_BUFFER - index
    {
      var cnt, e := ReadMore(conn, buf, index);
      if e != None {
        return index, ckResult, e;
      }
      index := index + cnt;
      ckResult := Packet.CheckReadyWithLength(buf[..index], Packet.MAX_BYTE_AUTH_PACKET);
      if ckResult != Packet.NeedMore {
        return index, ckResult, None;
      }
      ShortWhileWaiting(buf[..index]);
    }
  }

  lemma NothingReadYet(w: Bytes)
    requires w == []
    ensures Packet.CheckReadyWithLength(w, Packet.MAX_BYTE_AUTH_PACKET) == Packet.NeedMore
  {
  }

  /** One read behind what the buffer already holds. */
  method ReadMore<S>(conn: MixLayerAdaptor<S>, buf: array<byte>, index: nat) returns (cnt: nat, err: Option<NetError>)
    requires conn.Valid() && index < buf.Length && buf != conn.rtmp
    modifies buf, conn`rbuf, conn`decbuf, conn`initRead, conn`rState, conn`eaten, conn`plain, conn`given, conn.rtmp
    modifies conn.conn`rbuf, conn.conn`counter, conn.conn`seen, conn.conn`given, conn.conn.conn`inbox, conn.conn.conn`trouble
    ensures conn.Valid() && index + cnt <= buf.Length
    ensures buf[..index + cnt] + conn.Pending() == old(buf[..index] + conn.Pending())
    ensures err == None ==> cnt >= 1 && (conn.enableDecode ==> conn.initRead)
    ensures err != None ==> cnt == 0 && buf[..index] == old(buf[..index])
    ensures conn.enableDecode ==> Untouched(conn.cfg, conn.initRead, conn.eaten, conn.Raw(), old(conn.initRead), old(conn.eaten), old(conn.Raw()))
    ensures Reported(err, old(conn.Trouble()), conn.Trouble())
    ensures old(conn.FirstIsCertain()) ==> conn.initRead || Stalled(err, old(conn.Trouble()), conn.Trouble())
    ensures old(conn.Healthy()) ==>
              && conn.Healthy()
              && (err == None || err == Some(Timeout) || err == Some(Eof))
              && (RanDry(err, old(conn.Trouble()), conn.Trouble()) ==> conn.Pending() == [])
  {
    hide MixLayerAdaptor.Valid, MixLayerAdaptor.Healthy, MixLayerAdaptor.Pending, MixLayerAdaptor.Raw, MixLayerAdaptor.IsClean, MixLayerAdaptor.Settled;
    hide MixLayerAdaptor.FirstIsCertain, MixLayerAdaptor.FirstIsDisputed, Untouched;
    ghost var held, due := buf[..index], conn.Pending();
    cnt, err := conn.Read(buf, index);
    assert buf[..index + cnt] == held + due[..cnt];
    Assoc(held, due[..cnt], due[cnt..]);
    assert due == due[..cnt] + due[cnt..];
  }

  /** An unfinished handshake packet is shorter than the limit, so the buffer cannot fill up. */
  lemma ShortWhileWaiting(w: Bytes)
    requires Packet.CheckReadyWithLength(w, Packet.MAX_BYTE_AUTH_PACKET) == Packet.NeedMore
    ensures |w| < Packet.MAX_BYTE_AUTH_PACKET
  {
  }

  /** One packet, through the mix layer; nothing changes for the reader. */
  method SendPacket<S>(conn: MixLayerAdaptor<S>, crc: Packet.Checksum, data: Bytes, ts: nat) returns (err: Option<NetError>)
    requires conn.Valid()
    modifies conn`wState, conn`ivKey, conn.conn`wbuf, conn.conn.conn`outbox, conn.conn.conn`faults
    ensures conn.Valid()
    ensures var bytes := Emit(conn.cfg, conn.enableEncode, old(conn.WriterState()), Packet.Build(crc, data, ts)).1;
            && (err == None ==> conn.Out() == old(conn.Out()) + bytes)
            && old(conn.Wire()) <= conn.Wire() <= old(conn.Out()) + bytes
    ensures conn.Raw() == old(conn.Raw()) && conn.Pending() == old(conn.Pending()) && conn.Healthy() == old(conn.Healthy())
    ensures old(conn.Encodes()) ==> conn.Encodes() && conn.Faults() == old(conn.Faults()) + if err == None then 0 else 1
  {
    hide NeverRefuses, MixStream.Feed, MixStream.Deframe, MixStream.Clean, TakeFrame, Emit, Packet.Build;
    var pkt := Packet.BuildDataPacket(crc, data, ts);
    err := conn.SendSpecLen(pkt[..]);
  }

  datatype Reason = NetFailure | BadPacket | Refused(code: nat) | SendFailure

  datatype Outcome<S> = Failed(why: Reason) | Crashed | Fallback | Served(cn: RelayFrameConn<S>, req: AuthReq)

  /** The outcome a verdict calls for. */
  ghost predicate Classified<S>(r: Outcome<S>, v: Verdict) {
    match v
    case MoreNeeded => false
    case Malformed => r == Failed(BadPacket)
    case Panics => r == Crashed
    case Deny(code) => r == Failed(Refused(code))
    case Admit(total, req) => r == Failed(SendFailure) || (r.Served? && r.req == req)
  }

  /** The read error, if any, that an outcome stands for; a fallback stands for the end of the wire or a
      protocol error. */
  ghost predicate ReadErrorOf<S>(r: Outcome<S>, before: Trouble, after: Trouble) {
    if r == Failed(NetFailure) then Reported(Some(Timeout), before, after)
    else if r.Fallback? then Reported(Some(Eof), before, after) || after == before
    else after == before
  }

  /** The bytes that answer a verdict. */
  function ReplyTo<S>(cfg: Config<S>, on: bool, ws: Writer<S>, a: Acceptor, v: Verdict, token: nat, ts: nat): Bytes {
    match v
    case Deny(code) => Reply(cfg, on, ws, a, code, token, ts)
    case Admit(_, _) => Reply(cfg, on, ws, a, AUTH_OK, token, ts)
    case _ => []
  }

  /** `doHandshake`. But for a read error the verdict on the stream decides: an admitted client has been
      sent AUTH_OK and gets a packet connection positioned exactly after its request. Network failures
      are the network's, sends fail only by a failed write unless the encoder refuses, and on a clean
      wire a stream that allows a verdict gets it unless the network stalls; the connection stays fit
      for use. */
  method DoHandshake<S>(conn: MixLayerAdaptor<S>, a: Acceptor, now: nat, token: nat) returns (r: Outcome<S>)
    requires conn.Valid()
    modifies conn, conn.rtmp, conn.conn, conn.conn.conn
    ensures conn.Valid() && conn.enableDecode == old(conn.enableDecode) && conn.enableEncode == old(conn.enableEncode)
    ensures r != Failed(NetFailure) && !r.Fallback? ==> Classified(r, Judge(a, old(conn.Pending()), now))
    ensures ReadErrorOf(r, old(conn.Trouble()), conn.Trouble())
    ensures var reply := ReplyTo(conn.cfg, old(conn.enableEncode), old(conn.WriterState()), a, Judge(a, old(conn.Pending()), now), token, now);
            && (r == Failed(NetFailure) || r.Fallback? ==> conn.Out() == old(conn.Out()) && conn.Faults() == old(conn.Faults()))
            && (r.Failed? && (r.why.Refused? || r.why == SendFailure) ==> old(conn.Wire()) <= conn.Wire() <= old(conn.Out()) + reply)
            && (r.Served? ==> conn.Out() == old(conn.Out()) + reply)
            && (old(conn.Encodes()) ==>
                  && conn.Encodes()
                  && (r == Failed(SendFailure) ==> conn.Faults() > old(conn.Faults()))
                  && (r.Failed? && r.why.Refused? ==> conn.Out() == old(conn.Out()) + reply || conn.Faults() > old(conn.Faults())))
    ensures r.Served? ==>
              && HandedOver(r.cn, conn, a.crc) && fresh(r.cn) && fresh(r.cn.rtmp)
              && r.cn.Raw() == old(conn.Pending())[Judge(a, old(conn.Pending()), now).total..]
    ensures old(conn.Healthy()) ==>
              && conn.Healthy()
              && (r == Failed(NetFailure) || r.Fallback? ==> Judge(a, old(conn.Pending()), now) == MoreNeeded || Stalled(Some(Timeout), old(conn.Trouble()), conn.Trouble()))
              && (r.Fallback? ==> Judge(a, old(conn.Pending()), now) == MoreNeeded)
    ensures old(conn.enableDecode) ==> Untouched(conn.cfg, conn.initRead, conn.eaten, conn.Raw(), old(conn.initRead), old(conn.eaten), old(conn.Raw()))
    ensures old(conn.FirstIsCertain()) && r.Fallback? ==> conn.initRead
  {
    hide MixLayerAdaptor.Valid, MixLayerAdaptor.Healthy, MixLayerAdaptor.Pending, MixLayerAdaptor.Raw, MixLayerAdaptor.FirstIsCertain;
    hide RelayFrameConn.Valid, RelayFrameConn.Raw, NeverRefuses, Reply, Judge, Opens;
    var verdict, spare, err := ReceiveRequest(conn, a, now);
    if err != None {
      return if err == Some(Timeout) then Failed(NetFailure) else Fallback;
    }
    if verdict == Malformed {
      return Failed(BadPacket);
    }
    if verdict == Panics {
      return Crashed;
    }
    r := Respond(conn, a, verdict, spare, now, token);
  }

  /** The writing half of `doHandshake`: the answer goes out, and an admitted client's connection starts
      with the spare bytes. Nothing changes for the reader. */
  method Respond<S>(conn: MixLayerAdaptor<S>, a: Acceptor, verdict: Verdict, spare: Bytes, now: nat, token: nat) returns (r: Outcome<S>)
    requires conn.Valid() && (verdict.Deny? || verdict.Admit?)
    modifies conn`wState, conn`ivKey, conn.conn`wbuf, conn.conn.conn`outbox, conn.conn.conn`faults
    ensures conn.Valid() && Classified(r, verdict)
    ensures conn.Raw() == old(conn.Raw()) && conn.Pending() == old(conn.Pending()) && conn.Healthy() == old(conn.Healthy())
    ensures var reply := ReplyTo(conn.cfg, conn.enableEncode, old(conn.WriterState()), a, verdict, token, now);
            && old(conn.Wire()) <= conn.Wire() <= old(conn.Out()) + reply
            && (r.Served? ==> conn.Out() == old(conn.Out()) + reply)
            && (old(conn.Encodes()) ==>
                  && conn.Encodes()
                  && (r == Failed(SendFailure) ==> conn.Faults() > old(conn.Faults()))
                  && (r.Failed? && r.why.Refused? ==> conn.Out() == old(conn.Out()) + reply || conn.Faults() > old(conn.Faults())))
    ensures r.Served? ==> HandedOver(r.cn, conn, a.crc) && fresh(r.cn) && fresh(r.cn.rtmp) && r.cn.Raw() == spare + conn.Pending()
  {
    hide MixLayerAdaptor.Valid, MixLayerAdaptor.Healthy, MixLayerAdaptor.Pending, MixLayerAdaptor.Raw;
    hide RelayFrameConn.Valid, RelayFrameConn.Raw, NeverRefuses, Packet.Build, RS.Unpack, Emit;
    var code := match verdict case Deny(c) => c case _ => AUTH_OK;
    var serr := SendPacket(conn, a.crc, AuthRsp(code, token), now);
    if verdict.Deny? {
      return Failed(Refused(verdict.code));
    }
    if serr != None {
      return Failed(SendFailure);
    }
    var cn := new RelayFrameConn.WrapRelayFrameConn(conn, a.crc, spare, []);
    return Served(cn, verdict.req);
  }

  /** A packet connection just wrapped around `conn`. */
  ghost predicate HandedOver<S>(cn: RelayFrameConn<S>, conn: MixLayerAdaptor<S>, crc: Packet.Checksum)
    reads cn, conn, conn.conn
  {
    cn.conn == conn && cn.Valid() && cn.crc == crc && cn.rdbuf == [] && cn.given == []
  }

  /** The reading half of `doHandshake`: a verdict on the stream, and the bytes read beyond the
      request. On a clean wire an error other than a stall means that the stream allows no verdict. */
  method ReceiveRequest<S>(conn: MixLayerAdaptor<S>, a: Acceptor, now: nat) returns (verdict: Verdict, spare: Bytes, err: Option<NetError>)
    requires conn.Valid()
    modifies conn`rbuf, conn`decbuf, conn`initRead, conn`rState, conn`eaten, conn`plain, conn`given, conn.rtmp
    modifies conn.conn`rbuf, conn.conn`counter, conn.conn`seen, conn.conn`given, conn.conn.conn`inbox, conn.conn.conn`trouble
    ensures conn.Valid()
    ensures err == None ==> verdict == Judge(a, old(conn.Pending()), now) && verdict != MoreNeeded
    ensures err == None && verdict.Admit? ==> spare + conn.Pending() == old(conn.Pending())[verdict.total..]
    ensures conn.enableDecode ==> Untouched(conn.cfg, conn.initRead, conn.eaten, conn.Raw(), old(conn.initRead), old(conn.eaten), old(conn.Raw()))
    ensures Reported(err, old(conn.Trouble()), conn.Trouble())
    ensures old(conn.FirstIsCertain()) ==> conn.initRead || Stalled(err, old(conn.Trouble()), conn.Trouble())
    ensures old(conn.Healthy()) ==>
              && conn.Healthy()
              && (err != None ==> Judge(a, old(conn.Pending()), now) == MoreNeeded || Stalled(err, old(conn.Trouble()), conn.Trouble()))
  {
    hide MixStream.Feed, RS.Consumed, MixStream.Deframe, MixStream.Clean, TakeFrame;
    hide Opens, OpensKeyed, Judge, Packet.CheckReadyWithLength;
    ghost var w := conn.Pending();
    var buf := new byte[HANDSHAKE_BUFFER](_ => 0);
    var index, ckResult;
    index, ckResult, err := ReadPacket(conn, buf);
    var data := buf[..index];
    assert w[..index] == data;
    JudgeByPart(a, w, index, now);
    verdict := Judge(a, data, now);
    spare := [];
    if err != None {
      if conn.Pending() == [] { assert data == w; }
      return;
    }
    if verdict.Admit? {
      spare := data[verdict.total..];
      SpareIsTheRest(data, conn.Pending(), verdict.total);
    }
  }

  /** The bytes an auth reply puts on the wire. */
  function Reply<S>(cfg: Config<S>, on: bool, ws: Writer<S>, a: Acceptor, code: nat, token: nat, ts: nat): Bytes {
    Emit(cfg, on, ws, Packet.Build(a.crc, AuthRsp(code, token), ts)).1
  }

  /** The verdict reached on the bytes read is the verdict on the whole stream. */
  lemma JudgeByPart(a: Acceptor, w: Bytes, k: nat, now: nat)
    requires k <= |w|
    ensures Packet.CheckReadyWithLength(w[..k], Packet.MAX_BYTE_AUTH_PACKET) != Packet.NeedMore
            ==> Judge(a, w[..k], now) == Judge(a, w, now)
    ensures Packet.CheckReadyWithLength(w[..k], Packet.MAX_BYTE_AUTH_PACKET) == Packet.NeedMore <==> Judge(a, w[..k], now) == MoreNeeded
    ensures k == |w| ==> Judge(a, w[..k], now) == Judge(a, w, now)
  {
    hide Packet.GetDataCheckTs;
    Packet.CheckIsStable(w, k, Packet.MAX_BYTE_AUTH_PACKET);
    var c := Packet.CheckReadyWithLength(w[..k], Packet.MAX_BYTE_AUTH_PACKET);
    if c.Ready? { assert w[..k][..c.total] == w[..c.total]; }
    if k == |w| { assert w[..k] == w; }
  }

  /** The goroutine of `Start` after wrapping: a failed protocol turns the codec off on both
      directions. What the connection then yields is the original wire without the frames accepted
      before; that is the whole wire, whatever the chunking, if it does not start with a frame the
      decoder accepts, and never the whole wire if it starts with one that the keyed check passes too.
      Otherwise the outcome is the one the stream calls for, unless the network fails; an admitted
      client's connection reads what follows its request. */
  method HandleConn<S>(conn: MixLayerAdaptor<S>, a: Acceptor, now: nat, token: nat) returns (r: Outcome<S>)
    requires conn.Valid() && conn.enableDecode && !conn.initRead
    modifies conn, conn.rtmp, conn.conn, conn.conn.conn
    ensures conn.Valid()
    ensures r.Fallback? ==>
              && !conn.enableDecode && !conn.enableEncode
              && conn.eaten <= old(conn.Raw()) && conn.Pending() == old(conn.Raw())[|conn.eaten|..]
              && (!old(Opens(conn.cfg, conn.Raw())) ==> conn.Pending() == old(conn.Raw()))
              && (old(conn.FirstIsCertain()) ==> conn.eaten != [] && conn.Pending() != old(conn.Raw()))
    ensures r != Failed(NetFailure) && !r.Fallback? ==> Classified(r, Judge(a, old(conn.Pending()), now))
    ensures ReadErrorOf(r, old(conn.Trouble()), conn.Trouble())
    ensures old(conn.Encodes()) && r == Failed(SendFailure) ==> conn.Faults() > old(conn.Faults())
    ensures r == Failed(BadPacket) ==> Judge(a, old(conn.Pending()), now) == Malformed
    ensures r.Failed? && r.why.Refused? ==> Judge(a, old(conn.Pending()), now) == Deny(r.why.code)
    ensures r == Crashed ==> Packet.ZeroLength(old(conn.Pending()))
    ensures r.Served? ==>
              var v := Judge(a, old(conn.Pending()), now);
              && v.Admit? && r.req == v.req
              && HandedOver(r.cn, conn, a.crc) && fresh(r.cn) && fresh(r.cn.rtmp)
              && r.cn.Raw() == old(conn.Pending())[v.total..]
              && r.cn.Pending() == RS.Unpack(a.crc, old(conn.Pending())[v.total..])
              && (old(conn.Healthy()) && RS.Clean(a.crc, old(conn.Pending())[v.total..]) ==> r.cn.IsClean())
    ensures old(conn.Healthy()) && (r == Failed(NetFailure) || r.Fallback?) ==>
              Judge(a, old(conn.Pending()), now) == MoreNeeded || (r == Failed(NetFailure) && Stalled(Some(Timeout), old(conn.Trouble()), conn.Trouble()))
  {
    hide MixLayerAdaptor.Healthy, MixLayerAdaptor.Pending, MixLayerAdaptor.Raw, MixLayerAdaptor.FirstIsCertain, NeverRefuses;
    hide MixStream.Feed, RS.Consumed, RS.Unpack, RS.Clean, Reply, Judge, Opens, Packet.ZeroLength;
    ghost var raw := conn.Raw();
    assert conn.eaten + raw == raw;
    JudgePanicsIff(a, conn.Pending(), now);
    r := DoHandshake(conn, a, now, token);
    if r.Fallback? {
      FrontIsLost(conn.eaten, conn.Raw(), raw);
      conn.DisableDecode();
      conn.DisableEncode();
    }
  }

  /** A wire on which the fallback loses bytes: an honest frame of a message too short for a verdict,
      then what can start no frame. It opens for certain, the stream allows no verdict, and the reader
      meets an error, so that nothing but a timeout keeps `HandleConn` from a fallback without that
      frame. */
  lemma FallbackLosesFrame<S(!new)>(cfg: Config<S>, paired: (S, S) -> bool, ws: Writer<S>, a: Acceptor, m: Bytes, now: nat)
    requires Codec.Paired(cfg.codec, paired) && |cfg.key| == Codec.KEY_LENGTH
    requires InStep(cfg, paired, ws, Reader(false, cfg.codec.blank)) && 1 <= |m| <= 6
    ensures var w := OrEmpty(FrameOne(cfg, ws, m).1) + [0, 0, 0, 0];
            var r := Reader(false, cfg.codec.blank);
            && Opens(cfg, w) && OpensKeyed(cfg, w)
            && Deframe(cfg, r, w) == m && Judge(a, m, now) == MoreNeeded && !Clean(cfg, r, w)
  {
    hide FrameOne, InStep, Codec.Paired, TakeFrame, Deframe, Clean, Frame.CheckHeadFrameWithKey;
    var garbage: Bytes, r := [0, 0, 0, 0], Reader(false, cfg.codec.blank);
    FrameCrosses(cfg, paired, ws, r, m, garbage);
    SomeIsItsValue(FrameOne(cfg, ws, m).1);
    var f := OrEmpty(FrameOne(cfg, ws, m).1);
    TakeStep(cfg, r, f + garbage, []);
    var next := TakeFrame(cfg, r, f + garbage).next;
    assert f + garbage + [] == f + garbage && (f + garbage)[|f|..] + [] == garbage;
    ZerosStartNoFrame(cfg, next);
  }

  lemma ZerosStartNoFrame<S>(cfg: Config<S>, r: Reader<S>)
    ensures TakeFrame(cfg, r, [0, 0, 0, 0]).Reject?
    ensures Deframe(cfg, r, [0, 0, 0, 0]) == [] && !Clean(cfg, r, [0, 0, 0, 0])
  {
  }

  lemma FrontIsLost(eaten: Bytes, rest: Bytes, raw: Bytes)
    requires eaten + rest == raw
    ensures eaten <= raw && rest == raw[|eaten|..]
    ensures eaten != [] <==> rest != raw
  {
  }

  // ---------- the connecting side ----------

  /** What the client makes of the decoded byte stream `w`: not enough yet, no positive answer, a
      panic of its packet check, or a positive answer of some length with a token. */
  datatype Answer = NotYet | NoAnswer | ReaderPanics | Positive(total: nat, token: nat)

  function AnswerIn(crc: Packet.Checksum, parseRsp: Bytes -> Option<(int, nat)>, w: Bytes): (r: Answer)
    ensures r.Positive? ==> r.total <= |w|
  {
    match Packet.CheckReadyWithLength(w, Packet.MAX_BYTE_AUTH_PACKET) {
      case NeedMore => NotYet
      case Bad(_) => NoAnswer
      case Crash => ReaderPanics
      case Ready(n) =>
        var raw := Packet.GetData(crc, w[..n]);
        if raw == None || parseRsp(raw.value) == None || parseRsp(raw.value).value.0 != 0 then NoAnswer
        else Positive(n, parseRsp(raw.value).value.1)
    }
  }

  /** The client panics exactly on streams that start with a packet of length zero. */
  lemma AnswerPanicsIff(crc: Packet.Checksum, parseRsp: Bytes -> Option<(int, nat)>, w: Bytes)
    ensures AnswerIn(crc, parseRsp, w) == ReaderPanics <==> Packet.ZeroLength(w)
  {
    hide Packet.ZeroLength, Packet.CheckReadyWithLength;
    Packet.PanicsIffZeroLength(w, Packet.MAX_BYTE_AUTH_PACKET);
  }

  /** The answer found in the bytes read is the answer in the whole stream. */
  lemma AnswerByPart(crc: Packet.Checksum, parseRsp: Bytes -> Option<(int, nat)>, w: Bytes, k: nat)
    requires k <= |w|
    ensures Packet.CheckReadyWithLength(w[..k], Packet.MAX_BYTE_AUTH_PACKET) != Packet.NeedMore
            ==> AnswerIn(crc, parseRsp, w[..k]) == AnswerIn(crc, parseRsp, w)
    ensures Packet.CheckReadyWithLength(w[..k], Packet.MAX_BYTE_AUTH_PACKET) == Packet.NeedMore <==> AnswerIn(crc, parseRsp, w[..k]) == NotYet
    ensures k == |w| ==> AnswerIn(crc, parseRsp, w[..k]) == AnswerIn(crc, parseRsp, w)
  {
    hide Packet.GetData;
    Packet.CheckIsStable(w, k, Packet.MAX_BYTE_AUTH_PACKET);
    var c := Packet.CheckReadyWithLength(w[..k], Packet.MAX_BYTE_AUTH_PACKET);
    if c.Ready? { assert w[..k][..c.total] == w[..c.total]; }
    if k == |w| { assert w[..k] == w; }
  }

  /** The reading half of `doAuth`. On a clean wire an error other than a stall means that the stream
      holds no complete answer. */
  method ReceiveAnswer<S>(conn: MixLayerAdaptor<S>, crc: Packet.Checksum, parseRsp: Bytes -> Option<(int, nat)>)
    returns (answer: Answer, spare: Bytes, err: Option<NetError>)
    requires conn.Valid()
    modifies conn`rbuf, conn`decbuf, conn`initRead, conn`rState, conn`eaten, conn`plain, conn`given, conn.rtmp
    modifies conn.conn`rbuf, conn.conn`counter, conn.conn`seen, conn.conn`given, conn.conn.conn`inbox, conn.conn.conn`trouble
    ensures conn.Valid()
    ensures err == None ==> answer == AnswerIn(crc, parseRsp, old(conn.Pending())) && answer != NotYet
    ensures err == None && answer.Positive? ==> spare + conn.Pending() == old(conn.Pending())[answer.total..]
    ensures Reported(err, old(conn.Trouble()), conn.Trouble())
    ensures old(conn.Healthy()) ==>
              && conn.Healthy()
              && (err != None ==> AnswerIn(crc, parseRsp, old(conn.Pending())) == NotYet || Stalled(err, old(conn.Trouble()), conn.Trouble()))
  {
    hide MixStream.Feed, RS.Consumed, MixStream.Deframe, MixStream.Clean, TakeFrame;
    hide Opens, OpensKeyed, AnswerIn, Packet.CheckReadyWithLength;
    ghost var w := conn.Pending();
    var buf := new byte[HANDSHAKE_BUFFER](_ => 0);
    var index, ckResult;
    index, ckResult, err := ReadPacket(conn, buf);
    var got := buf[..index];
    assert w[..index] == got;
    AnswerByPart(crc, parseRsp, w, index);
    answer, spare := AnswerIn(crc, parseRsp, got), [];
    if err != None {
      if conn.Pending() == [] { assert got == w; }
      return;
    }
    if answer.Positive? {
      spare := got[answer.total..];
      SpareIsTheRest(got, conn.Pending(), answer.total);
    }
  }

  datatype AuthOutcome<S> = NotSent(err: NetError) | NotAnswered(err: NetError) | AuthRefused | AuthCrashed | AuthOk(cn: RelayFrameConn<S>, token: nat)

  /** `doAuth`: the request goes out as one packet; but for a read error the answer in the stream
      decides, and the connection returned reads exactly the bytes after a positive one. Nothing fails
      but by the network, unless the encoder refuses: on a clean wire a stream that holds an answer is
      missed only by a stall, and the connection stays fit for use. */
  method DoAuth<S>(conn: MixLayerAdaptor<S>, crc: Packet.Checksum, request: Bytes, parseRsp: Bytes -> Option<(int, nat)>, ts: nat)
    returns (r: AuthOutcome<S>)
    requires conn.Valid()
    modifies conn, conn.rtmp, conn.conn, conn.conn.conn
    ensures conn.Valid()
    ensures var bytes := Emit(conn.cfg, old(conn.enableEncode), old(conn.WriterState()), Packet.Build(crc, request, ts)).1;
            if r.NotSent? then old(conn.Wire()) <= conn.Wire() <= old(conn.Out()) + bytes && conn.Pending() == old(conn.Pending())
            else conn.Out() == old(conn.Out()) + bytes
    ensures match r
            case NotSent(_) => old(conn.Encodes()) ==> conn.Faults() > old(conn.Faults())
            case NotAnswered(e) =>
              && Reported(Some(e), old(conn.Trouble()), conn.Trouble())
              && (old(conn.Healthy()) ==> AnswerIn(crc, parseRsp, old(conn.Pending())) == NotYet || Stalled(Some(e), old(conn.Trouble()), conn.Trouble()))
            case AuthRefused => AnswerIn(crc, parseRsp, old(conn.Pending())) == NoAnswer
            case AuthCrashed => Packet.ZeroLength(old(conn.Pending()))
            case AuthOk(cn, token) =>
              var answer := AnswerIn(crc, parseRsp, old(conn.Pending()));
              && answer.Positive? && token == answer.token
              && HandedOver(cn, conn, crc) && fresh(cn) && fresh(cn.rtmp)
              && cn.Raw() == old(conn.Pending())[answer.total..]
              && cn.Pending() == RS.Unpack(crc, old(conn.Pending())[answer.total..])
              && (old(conn.Healthy()) && RS.Clean(crc, old(conn.Pending())[answer.total..]) ==> cn.IsClean())
    ensures old(conn.Healthy()) ==> conn.Healthy()
    ensures !r.NotAnswered? ==> conn.Trouble() == old(conn.Trouble())
    ensures !r.NotSent? && old(conn.Encodes()) ==> conn.Encodes() && conn.Faults() == old(conn.Faults())
  {
    hide MixLayerAdaptor.Valid, MixLayerAdaptor.Healthy, MixLayerAdaptor.Pending, MixLayerAdaptor.Raw, NeverRefuses;
    hide RelayFrameConn.Valid, Packet.Build, RS.Unpack, RS.Clean, Emit, AnswerIn, Packet.ZeroLength;
    AnswerPanicsIff(crc, parseRsp, conn.Pending());
    var serr := SendPacket(conn, crc, request, ts);
    if serr != None {
      return NotSent(serr.value);
    }
    ghost var out := conn.Out();
    var answer, spare, rerr := ReceiveAnswer(conn, crc, parseRsp);
    assert conn.Out() == out;
    if rerr != None {
      return NotAnswered(rerr.value);
    }
    if answer == ReaderPanics {
      return AuthCrashed;
    }
    if !answer.Positive? {
      return AuthRefused;
    }
    var cn := new RelayFrameConn.WrapRelayFrameConn(conn, crc, spare, []);
    return AuthOk(cn, answer.token);
  }

  // ---------- honest peers ----------

  /** What the acceptor should say to a request that parses to `req`. */
  function Ruling(a: Acceptor, req: AuthReq, total: nat): Verdict {
    if !a.onAuth(req.user, req.pwd) then Deny(AUTH_USER_PWD_INVALID)
    else if req.name == [] || req.port == 0 then Deny(AUTH_INVALID_ADDRESS)
    else Admit(total, req)
  }

  /** A request packet that fits the handshake limit is ruled on, whatever follows it, exactly while
      it is not too old; an older one is refused as malformed, a larger one always is. */
  lemma RequestIsJudged(a: Acceptor, request: Bytes, ts: nat, req: AuthReq, now: nat, rest: Bytes)
    requires a.parseAuth(request) == Some(req) && ts < Packet.TWO_64
    requires Packet.PacketSize(a.crc, request, ts) < Packet.TWO_32
    ensures var w, n := Packet.Build(a.crc, request, ts) + rest, Packet.PacketSize(a.crc, request, ts);
            Judge(a, w, now) ==
            if n <= Packet.MAX_BYTE_AUTH_PACKET && (a.alive == 0 || now <= (ts + a.alive) % Packet.TWO_64)
            then Ruling(a, req, n) else Malformed
  {
    hide Packet.Build, Packet.PacketSize, Packet.GetDataCheckTs, Packet.CheckReadyWithLength;
    var p, n := Packet.Build(a.crc, request, ts), Packet.PacketSize(a.crc, request, ts);
    Packet.PacketAcceptedIff(a.crc, request, ts, Packet.MAX_BYTE_AUTH_PACKET, rest);
    Packet.PacketSizeIs(a.crc, request, ts);
    assert (p + rest)[..n] == p;
    if n <= Packet.MAX_BYTE_AUTH_PACKET {
      Packet.GetDataOfBuild(a.crc, request, ts, a.alive, now);
    } else {
      TooLargeIsBad(a.crc, request, ts, rest);
    }
  }

  lemma TooLargeIsBad(crc: Packet.Checksum, data: Bytes, ts: nat, rest: Bytes)
    requires Packet.MAX_BYTE_AUTH_PACKET < Packet.PacketSize(crc, data, ts) < Packet.TWO_32
    ensures Packet.CheckReadyWithLength(Packet.Build(crc, data, ts) + rest, Packet.MAX_BYTE_AUTH_PACKET).Bad?
  {
    hide Packet.Build, Packet.PacketSize;
    Packet.PacketFields(crc, data, ts, rest);
  }

  /** A positive reply of the acceptor is the client's answer, whatever follows it. */
  lemma ReplyIsAnswer(crc: Packet.Checksum, parseRsp: Bytes -> Option<(int, nat)>, token: nat, ts: nat, rest: Bytes)
    requires token < Packet.TWO_32 && ts < Packet.TWO_64
    requires parseRsp(AuthRsp(AUTH_OK, token)) == Some((AUTH_OK, token))
    ensures var p := Packet.Build(crc, AuthRsp(AUTH_OK, token), ts);
            AnswerIn(crc, parseRsp, p + rest) == Positive(|p|, token)
  {
    hide Packet.Build, Packet.PacketSize, Packet.CheckReadyWithLength, Packet.GetDataCheckTs, AuthRsp;
    var data := AuthRsp(AUTH_OK, token);
    var p := Packet.Build(crc, data, ts);
    ReplyIsShort(AUTH_OK, token);
    Packet.PacketOverhead(crc, data, ts);
    Packet.PacketSizeIs(crc, data, ts);
    Packet.PacketAcceptedIff(crc, data, ts, Packet.MAX_BYTE_AUTH_PACKET, rest);
    Packet.GetDataOfBuild(crc, data, ts, 0, 0);
    assert (p + rest)[..|p|] == p;
  }

  lemma ReplyIsShort(code: nat, token: nat)
    requires code < 0x8000_0000 && token < Packet.TWO_32
    ensures |AuthRsp(code, token)| <= 13
  {
    assert Packet.Pow128(5) == 0x8_0000_0000;
    Packet.VarintLengthIs(code);
    Packet.VarintLengthIs(token);
    Packet.ShortVarint(code, 5);
    Packet.ShortVarint(token, 5);
  }

  /** A refusal, which every code but 0 is, whatever token it carries: a client that reads back what the
      acceptor builds never takes it for a positive answer, whatever follows it. */
  lemma RefusalIsNoAnswer(crc: Packet.Checksum, parseRsp: Bytes -> Option<(int, nat)>, code: nat, token: nat, ts: nat, rest: Bytes)
    requires 0 < code < 0x8000_0000 && token < Packet.TWO_32 && ts < Packet.TWO_64
    requires parseRsp(AuthRsp(code, token)) == Some((code, token))
    ensures AnswerIn(crc, parseRsp, Packet.Build(crc, AuthRsp(code, token), ts) + rest) == NoAnswer
  {
    hide Packet.Build, Packet.PacketSize, Packet.CheckReadyWithLength, Packet.GetDataCheckTs, AuthRsp;
    var data := AuthRsp(code, token);
    var p := Packet.Build(crc, data, ts);
    ReplyIsShort(code, token);
    Packet.PacketOverhead(crc, data, ts);
    Packet.PacketSizeIs(crc, data, ts);
    Packet.PacketAcceptedIff(crc, data, ts, Packet.MAX_BYTE_AUTH_PACKET, rest);
    Packet.GetDataOfBuild(crc, data, ts, 0, 0);
    assert (p + rest)[..|p|] == p;
  }

  /** The reply as the client's own parser reads it. */
  lemma ReplyUnderstood(crc: Packet.Checksum, code: nat, token: nat, ts: nat, rest: Bytes)
    requires code < 0x8000_0000 && token < Packet.TWO_32 && ts < Packet.TWO_64
    ensures var p := Packet.Build(crc, AuthRsp(code, token), ts);
            AnswerIn(crc, ParseAuthRsp, p + rest) == if code == 0 then Positive(|p|, token) else NoAnswer
  {
    hide ParseAuthRsp, Packet.Build, AnswerIn, AuthRsp;
    AuthRspReadBack(code, token);
    if code == 0 {
      ReplyIsAnswer(crc, ParseAuthRsp, token, ts, rest);
    } else {
      RefusalIsNoAnswer(crc, ParseAuthRsp, code, token, ts, rest);
    }
  }

  /** Both sides agree, on any stream the acceptor answers: its answer, sent through the mix layer, is read
      by the client as the token of an admission, or as none, exactly as the acceptor ruled. */
  lemma BothSidesAgree<S(!new)>(cfg: Config<S>, paired: (S, S) -> bool, ws: Writer<S>, r: Reader<S>, a: Acceptor, w: Bytes,
                                now: nat, token: nat, ts: nat)
    requires Codec.Paired(cfg.codec, paired) && |cfg.key| == Codec.KEY_LENGTH && InStep(cfg, paired, ws, r)
    requires token < Packet.TWO_32 && ts < Packet.TWO_64
    requires Judge(a, w, now).Deny? || Judge(a, w, now).Admit?
    ensures var v := Judge(a, w, now); var wire := ReplyTo(cfg, true, ws, a, v, token, ts); var got := Deframe(cfg, r, wire);
            && Clean(cfg, r, wire)
            && AnswerIn(a.crc, ParseAuthRsp, got) == if v.Admit? then Positive(|got|, token) else NoAnswer
  {
    hide Deframe, Clean, FrameStream, InStep, Packet.Build, Codec.Paired, AnswerIn, AuthRsp, Judge, ParseAuthRsp, MixStream.Split;
    var v := Judge(a, w, now);
    DenyCodes(a, w, now);
    var code := match v case Deny(c) => c case _ => AUTH_OK;
    var p := Packet.Build(a.crc, AuthRsp(code, token), ts);
    var wire, ms := ReplyTo(cfg, true, ws, a, v, token, ts), MixStream.Split(p);
    SplitLosesNothing(p);
    var j := HonestPrefix(cfg, paired, ws, r, ms, wire);
    assert ms[..|ms|] == ms && p + [] == p;
    ReplyUnderstood(a.crc, code, token, ts, []);
  }

  lemma DenyCodes(a: Acceptor, w: Bytes, now: nat)
    ensures Judge(a, w, now).Deny? ==> Judge(a, w, now).code == 10000 || Judge(a, w, now).code == 10001
  {
    hide Packet.CheckReadyWithLength, Packet.GetDataCheckTs;
  }

  /** A reply or a request with a wrong checksum is refused on either side, whatever follows it. */
  lemma DamagedIsRefused(a: Acceptor, parseRsp: Bytes -> Option<(int, nat)>, p: Packet.DataPacket, now: nat, rest: Bytes)
    requires |p.data| < Packet.TWO_64 && p.crc < Packet.TWO_32 && p.ts < Packet.TWO_64 && |Packet.Envelop(p)| <= 384
    requires p.crc != a.crc(p.data) % 0x1_0000_0000
    ensures AnswerIn(a.crc, parseRsp, Packet.Envelop(p) + rest) == NoAnswer
    ensures Judge(a, Packet.Envelop(p) + rest, now) == Malformed
  {
    hide Packet.Envelop, Packet.CheckReadyWithLength, Packet.GetDataCheckTs;
    Packet.EnvelopSize(p);
    Packet.DamagedYieldsNothing(a.crc, p, rest, 0, 0);
    Packet.DamagedYieldsNothing(a.crc, p, rest, a.alive, now);
  }

  /** What is ruled: an unknown user or a wrong password is 10000, no target name or port 0 is 10001, and
      everybody else is admitted; what does not parse is malformed, and so is what exceeds 384 bytes. */
  lemma RulingIs(a: Acceptor, request: Bytes, ts: nat, now: nat, rest: Bytes)
    requires ts < Packet.TWO_64 && Packet.PacketSize(a.crc, request, ts) < Packet.TWO_32
    ensures var v, n := Judge(a, Packet.Build(a.crc, request, ts) + rest, now), Packet.PacketSize(a.crc, request, ts);
            var req := a.parseAuth(request);
            var young := n <= 384 && (a.alive == 0 || now <= (ts + a.alive) % 0x1_0000_0000_0000_0000);
            && (v == Malformed <==> !young || req == None)
            && (v == Deny(10000) <==> young && req.Some? && !a.onAuth(req.value.user, req.value.pwd))
            && (v == Deny(10001) <==> young && req.Some? && a.onAuth(req.value.user, req.value.pwd) && (req.value.name == [] || req.value.port == 0))
            && (v.Admit? <==> young && req.Some? && a.onAuth(req.value.user, req.value.pwd) && req.value.name != [] && req.value.port != 0)
            && (v.Admit? ==> v == Admit(n, req.value))
  {
    hide Packet.Build, Packet.PacketSize, Packet.GetDataCheckTs, Packet.CheckReadyWithLength;
    if a.parseAuth(request).Some? {
      RequestIsJudged(a, request, ts, a.parseAuth(request).value, now, rest);
    } else {
      UnparsedIsMalformed(a, request, ts, now, rest);
    }
  }

  lemma UnparsedIsMalformed(a: Acceptor, request: Bytes, ts: nat, now: nat, rest: Bytes)
    requires ts < Packet.TWO_64 && Packet.PacketSize(a.crc, request, ts) < Packet.TWO_32 && a.parseAuth(request) == None
    ensures Judge(a, Packet.Build(a.crc, request, ts) + rest, now) == Malformed
  {
    hide Packet.Build, Packet.PacketSize, Packet.GetDataCheckTs, Packet.CheckReadyWithLength;
    var p, n := Packet.Build(a.crc, request, ts), Packet.PacketSize(a.crc, request, ts);
    Packet.PacketAcceptedIff(a.crc, request, ts, Packet.MAX_BYTE_AUTH_PACKET, rest);
    Packet.PacketSizeIs(a.crc, request, ts);
    assert (p + rest)[..n] == p;
    if n <= Packet.MAX_BYTE_AUTH_PACKET {
      Packet.GetDataOfBuild(a.crc, request, ts, a.alive, now);
    } else {
      TooLargeIsBad(a.crc, request, ts, rest);
    }
  }

  /** A first packet, then any history of packets, through the mix layer. Of every prefix of the wire:
      no protocol error, and what is decoded is a part of the first packet, or all of it followed by a
      stream that unpacks to the data of the next k packets; of all of them when the wire is whole. */
  lemma FirstThenData<S(!new)>(cfg: Config<S>, paired: (S, S) -> bool, ws: Writer<S>, r: Reader<S>, crc: Packet.Checksum,
                               first: RS.Sent, ps: seq<RS.Sent>, p: Bytes)
    returns (k: nat)
    requires Codec.Paired(cfg.codec, paired) && |cfg.key| == Codec.KEY_LENGTH && InStep(cfg, paired, ws, r)
    requires forall q :: q in ps ==> RS.Fits(crc, q)
    requires p <= FrameStream(cfg, ws, RS.Messages(crc, [first] + ps))
    ensures var w, head := Deframe(cfg, r, p), Packet.Build(crc, first.data, first.ts); var n := |head|;
            && Clean(cfg, r, p) && k <= |ps|
            && if |w| < n then w == head[..|w|]
               else w == head + w[n..] && RS.Clean(crc, w[n..]) && RS.Unpack(crc, w[n..]) == RS.Payload(ps[..k])
    ensures p == FrameStream(cfg, ws, RS.Messages(crc, [first] + ps)) ==>
              |Deframe(cfg, r, p)| >= |Packet.Build(crc, first.data, first.ts)| && k == |ps|
  {
    hide Deframe, Clean, FrameStream, InStep, RS.Messages, RS.Unpack, RS.Clean, RS.Payload, Packet.Build, Codec.Paired;
    var all := [first] + ps;
    var ms := RS.Messages(crc, all);
    RS.MessagesCarryPackets(crc, all);
    var j := HonestPrefix(cfg, paired, ws, r, ms, p);
    ConcatTake(ms, j);
    assert ms[..|ms|] == ms;
    RS.PacketStreamStep(crc, all);
    assert all[1..] == ps;
    var w, head := Concat(ms[..j]), Packet.Build(crc, first.data, first.ts);
    PrefixSplit(w, head, RS.PacketStream(crc, ps));
    k := 0;
    if |w| >= |head| {
      k := RS.HonestPrefix(crc, ps, w[|head|..]);
    }
  }

  /** The opening of a client, an acceptable request before its data. Of every prefix of the wire, the
      acceptor has either not seen all of the request or admits it, and behind it the data of the first
      k packets is due, no more and no less; of the whole wire, that of all of them. */
  lemma OpeningDelivers<S(!new)>(cfg: Config<S>, paired: (S, S) -> bool, ws: Writer<S>, r: Reader<S>,
                                 a: Acceptor, request: Bytes, ts: nat, req: AuthReq, now: nat, ps: seq<RS.Sent>, p: Bytes)
    returns (k: nat)
    requires Codec.Paired(cfg.codec, paired) && |cfg.key| == Codec.KEY_LENGTH && InStep(cfg, paired, ws, r)
    requires a.parseAuth(request) == Some(req) && ts < Packet.TWO_64
    requires Packet.PacketSize(a.crc, request, ts) <= Packet.MAX_BYTE_AUTH_PACKET
    requires a.alive == 0 || now <= (ts + a.alive) % Packet.TWO_64
    requires a.onAuth(req.user, req.pwd) && req.name != [] && req.port != 0
    requires forall q :: q in ps ==> RS.Fits(a.crc, q)
    requires p <= FrameStream(cfg, ws, RS.Messages(a.crc, [RS.Sent(request, ts)] + ps))
    ensures var w, n := Deframe(cfg, r, p), Packet.PacketSize(a.crc, request, ts);
            && Clean(cfg, r, p) && k <= |ps|
            && if |w| < n then Judge(a, w, now) == MoreNeeded
               else Judge(a, w, now) == Admit(n, req) && RS.Clean(a.crc, w[n..]) && RS.Unpack(a.crc, w[n..]) == RS.Payload(ps[..k])
    ensures p == FrameStream(cfg, ws, RS.Messages(a.crc, [RS.Sent(request, ts)] + ps)) ==>
              |Deframe(cfg, r, p)| >= Packet.PacketSize(a.crc, request, ts) && k == |ps|
  {
    hide Deframe, Clean, FrameStream, InStep, RS.Messages, RS.Unpack, RS.Clean, RS.Payload, Packet.Build, Packet.PacketSize;
    hide Codec.Paired, Judge;
    k := FirstThenData(cfg, paired, ws, r, a.crc, RS.Sent(request, ts), ps, p);
    var w, n := Deframe(cfg, r, p), Packet.PacketSize(a.crc, request, ts);
    Packet.PacketSizeIs(a.crc, request, ts);
    if |w| < n {
      PartOfARequest(a, request, ts, |w|, now);
    } else {
      RequestIsJudged(a, request, ts, req, now, w[n..]);
    }
  }

  lemma PartOfARequest(a: Acceptor, request: Bytes, ts: nat, k: nat, now: nat)
    requires k < Packet.PacketSize(a.crc, request, ts) <= Packet.MAX_BYTE_AUTH_PACKET
    ensures k <= |Packet.Build(a.crc, request, ts)| && Judge(a, Packet.Build(a.crc, request, ts)[..k], now) == MoreNeeded
  {
    hide Packet.Build, Packet.PacketSize, Packet.CheckReadyWithLength;
    Packet.StrictPrefixNeedsMore(a.crc, request, ts, Packet.MAX_BYTE_AUTH_PACKET, k);
  }

  /** The same for the acceptor's side: a positive reply before its data, as the client reads them. */
  lemma ReplyDelivers<S(!new)>(cfg: Config<S>, paired: (S, S) -> bool, ws: Writer<S>, r: Reader<S>, crc: Packet.Checksum,
                               parseRsp: Bytes -> Option<(int, nat)>, token: nat, ts: nat, ps: seq<RS.Sent>, p: Bytes)
    returns (k: nat)
    requires Codec.Paired(cfg.codec, paired) && |cfg.key| == Codec.KEY_LENGTH && InStep(cfg, paired, ws, r)
    requires token < Packet.TWO_32 && ts < Packet.TWO_64
    requires parseRsp(AuthRsp(AUTH_OK, token)) == Some((AUTH_OK, token))
    requires forall q :: q in ps ==> RS.Fits(crc, q)
    requires p <= FrameStream(cfg, ws, RS.Messages(crc, [RS.Sent(AuthRsp(AUTH_OK, token), ts)] + ps))
    ensures var w, n := Deframe(cfg, r, p), |Packet.Build(crc, AuthRsp(AUTH_OK, token), ts)|;
            && Clean(cfg, r, p) && k <= |ps|
            && if |w| < n then AnswerIn(crc, parseRsp, w) == NotYet
               else AnswerIn(crc, parseRsp, w) == Positive(n, token) && RS.Clean(crc, w[n..]) && RS.Unpack(crc, w[n..]) == RS.Payload(ps[..k])
    ensures p == FrameStream(cfg, ws, RS.Messages(crc, [RS.Sent(AuthRsp(AUTH_OK, token), ts)] + ps)) ==>
              |Deframe(cfg, r, p)| >= |Packet.Build(crc, AuthRsp(AUTH_OK, token), ts)| && k == |ps|
  {
    hide Deframe, Clean, FrameStream, InStep, RS.Messages, RS.Unpack, RS.Clean, RS.Payload, Packet.Build, Packet.PacketSize;
    hide Codec.Paired, AnswerIn, AuthRsp;
    var reply := AuthRsp(AUTH_OK, token);
    k := FirstThenData(cfg, paired, ws, r, crc, RS.Sent(reply, ts), ps, p);
    var w, n := Deframe(cfg, r, p), |Packet.Build(crc, reply, ts)|;
    if |w| < n {
      PartOfAReply(crc, parseRsp, token, ts, |w|);
    } else {
      ReplyIsAnswer(crc, parseRsp, token, ts, w[n..]);
    }
  }

  lemma PartOfAReply(crc: Packet.Checksum, parseRsp: Bytes -> Option<(int, nat)>, token: nat, ts: nat, k: nat)
    requires token < Packet.TWO_32 && ts < Packet.TWO_64 && k < |Packet.Build(crc, AuthRsp(AUTH_OK, token), ts)|
    ensures AnswerIn(crc, parseRsp, Packet.Build(crc, AuthRsp(AUTH_OK, token), ts)[..k]) == NotYet
  {
    hide Packet.Build, Packet.PacketSize, Packet.CheckReadyWithLength, AuthRsp;
    var data := AuthRsp(AUTH_OK, token);
    ReplyIsShort(AUTH_OK, token);
    Packet.PacketOverhead(crc, data, ts);
    Packet.PacketSizeIs(crc, data, ts);
    Packet.StrictPrefixNeedsMore(crc, data, ts, Packet.MAX_BYTE_AUTH_PACKET, k);
  }
}
