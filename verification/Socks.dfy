/** The SOCKS5 client (proxy/socks/socks_connector.go): request and replies of sections 3 to 6 of
    RFC 1928, the handshake loop over a fixed buffer, and the connection it hands over. The request
    parser is the one of the accepting side (proxy/socks/socks_acceptor.go). */
module Socks {
  import opened Octets
  import opened Exchange

  const SOCKS_BUFFER: nat := 1024

  const ADDR_TYPE_IPV4: byte := 1
  const ADDR_TYPE_DOMAIN: byte := 3
  const ADDR_TYPE_IPV6: byte := 4

  /** A target as `net.ParseIP` classifies it: four bytes, sixteen bytes, or a name. */
  datatype Host = Name(name: Bytes) | V4(ip: Bytes) | V6(ip: Bytes)

  predicate HostOk(h: Host) {
    match h
    case Name(_) => true
    case V4(ip) => |ip| == 4
    case V6(ip) => |ip| == 16
  }

  // ---------- requests ----------

  function PutU16(n: nat): (b: Bytes)
    ensures |b| == 2
  {
    [n / 256 % 256, n % 256]
  }

  function GetU16(b: Bytes): (n: nat)
    requires |b| == 2
    ensures n < 0x1_0000
  {
    var hi: int, lo: int := b[0], b[1];
    hi * 256 + lo
  }

  function AddrType(h: Host): byte {
    match h
    case Name(_) => ADDR_TYPE_DOMAIN
    case V4(_) => ADDR_TYPE_IPV4
    case V6(_) => ADDR_TYPE_IPV6
  }

  function AddrBytes(h: Host): Bytes {
    match h
    case Name(name) => [|name| % 256] + name
    case V4(ip) => ip
    case V6(ip) => ip
  }

  function BuildSocks5Req(h: Host, port: nat): Bytes {
    [5, 1, 0] + [AddrType(h)] + AddrBytes(h) + PutU16(port)
  }

  /** Version 5, command 1, reserved 0, the address type, the address (a name behind its length) and the
      port in network order, as section 4 of RFC 1928 lays them out. */
  lemma RequestIs(name: Bytes, ip: Bytes, port: nat)
    requires port < 0x1_0000
    ensures BuildSocks5Req(Name(name), port) == [5, 1, 0, 3, |name| % 256] + name + [port / 256, port % 256]
    ensures BuildSocks5Req(V4(ip), port) == [5, 1, 0, 1] + ip + [port / 256, port % 256]
    ensures BuildSocks5Req(V6(ip), port) == [5, 1, 0, 4] + ip + [port / 256, port % 256]
    ensures BuildSocks5Req(Name([97, 98]), 443) == [5, 1, 0, 3, 2, 97, 98, 1, 187]
    ensures BuildSocks5Req(V4([1, 2, 3, 4]), 80) == [5, 1, 0, 1, 1, 2, 3, 4, 0, 80]
  {
    assert port / 256 % 256 == port / 256;
  }

  /** The length of an address message, from its type byte and, for a name, the byte after it. */
  function Total(data: Bytes): Option<nat>
    requires |data| >= 5
  {
    var len: int := data[4];
    if data[3] == ADDR_TYPE_DOMAIN then Some(4 + 1 + len + 2)
    else if data[3] == ADDR_TYPE_IPV4 then Some(4 + 4 + 2)
    else if data[3] == ADDR_TYPE_IPV6 then Some(4 + 16 + 2)
    else None
  }

  datatype Parsed = Short | UnknownType | Request(host: Host, port: nat, total: nat)

  /** The accepting side's reading of the bytes it holds. */
  function ParseReq(buf: Bytes): (r: Parsed)
    ensures r.Request? ==> 7 <= r.total <= |buf| && HostOk(r.host)
  {
    if |buf| < 7 then Short
    else
      var total := Total(buf);
      if total == None then UnknownType
      else if |buf| < total.value then Short
      else
        var n := total.value;
        var port := GetU16(buf[n - 2..n]);
        if buf[3] == ADDR_TYPE_IPV4 then Request(V4(buf[4..8]), port, n)
        else if buf[3] == ADDR_TYPE_DOMAIN then Request(Name(buf[5..n - 2]), port, n)
        else Request(V6(buf[4..20]), port, n)
  }

  lemma RequestFields(h: Host, port: nat, rest: Bytes)
    requires HostOk(h)
    ensures var r := BuildSocks5Req(h, port); var n := 4 + |AddrBytes(h)|;
            && |r| == n + 2 && (r + rest)[..4] == [5, 1, 0, AddrType(h)]
            && (r + rest)[4..n] == AddrBytes(h) && (r + rest)[n..n + 2] == PutU16(port)
  {
  }

  /** A request, whatever follows it, is read back as it was built exactly when its length byte can
      hold the name's length. */
  lemma RequestReadBackIff(h: Host, port: nat, rest: Bytes)
    requires HostOk(h) && port < 0x1_0000
    ensures ParseReq(BuildSocks5Req(h, port) + rest) == Request(h, port, |BuildSocks5Req(h, port)|)
            <==> (h.Name? ==> |h.name| < 256)
  {
    hide BuildSocks5Req, PutU16;
    var buf, n := BuildSocks5Req(h, port) + rest, 4 + |AddrBytes(h)|;
    RequestFields(h, port, rest);
    PortReadBack(port);
    assert buf[..4][3] == buf[3] && buf[4..n][0] == buf[4];
    if h.Name? {
      assert buf[5..n] == buf[4..n][1..] == h.name;
    }
  }

  lemma PortReadBack(port: nat)
    requires port < 0x1_0000
    ensures GetU16(PutU16(port)) == port
  {
    assert port / 256 % 256 == port / 256;
  }

  lemma PutGetU16(b: Bytes)
    requires |b| == 2
    ensures PutU16(GetU16(b)) == b
  {
    var hi: int, lo: int := b[0], b[1];
    assert (hi * 256 + lo) / 256 == hi && (hi * 256 + lo) % 256 == lo;
  }

  /** The address of what parses is laid out where it was read. */
  lemma ParsedAddress(buf: Bytes)
    requires ParseReq(buf).Request?
    ensures var r := ParseReq(buf); AddrType(r.host) == buf[3] && AddrBytes(r.host) == buf[4..r.total - 2]
  {
    hide GetU16;
    var r := ParseReq(buf);
    var n := r.total;
    match r.host
    case Name(name) =>
      assert name == buf[5..n - 2] && |name| == buf[4] as int;
      assert buf[4..n - 2] == [buf[4]] + buf[5..n - 2];
    case V4(_) =>
    case V6(_) =>
  }

  /** What parses is, after its first three bytes, the request for what it parsed to. */
  lemma ParsedRebuilds(buf: Bytes)
    requires ParseReq(buf).Request?
    ensures var r := ParseReq(buf); BuildSocks5Req(r.host, r.port) == [5, 1, 0] + buf[3..r.total]
  {
    hide AddrBytes, AddrType, GetU16, PutU16;
    var r := ParseReq(buf);
    var n := r.total;
    ParsedAddress(buf);
    ParsedPort(buf);
    SliceInThree(buf, 3, 4, n - 2, n);
    Assoc([5, 1, 0] + [buf[3]], buf[4..n - 2], buf[n - 2..n]);
    Assoc([5, 1, 0], [buf[3]], buf[4..n - 2] + buf[n - 2..n]);
    Assoc([buf[3]], buf[4..n - 2], buf[n - 2..n]);
  }

  lemma ParsedPort(buf: Bytes)
    requires ParseReq(buf).Request?
    ensures var r := ParseReq(buf); PutU16(r.port) == buf[r.total - 2..r.total]
  {
    hide GetU16, PutU16;
    var n := ParseReq(buf).total;
    PutGetU16(buf[n - 2..n]);
  }

  lemma SliceInThree(buf: Bytes, i: nat, j: nat, k: nat, n: nat)
    requires i + 1 == j && j <= k <= n <= |buf|
    ensures buf[i..n] == [buf[i]] + buf[j..k] + buf[k..n]
  {
  }

  // ---------- replies ----------

  datatype Check = NeedMore | Bad(code: int) | Done(total: nat)

  function CheckSocks5HandshakeResult(result: Bytes): Check {
    if |result| < 2 then NeedMore
    else if result[0] != 5 then Bad(-1)
    else if result[1] != 0 then Bad(-2)
    else Done(2)
  }

  function CheckSocks5RspResult(data: Bytes): (c: Check)
    ensures c.Done? ==> 7 <= c.total <= |data|
  {
    if |data| < 10 then NeedMore
    else if data[1] != 0 then Bad(-1)
    else
      var total := Total(data);
      if total == None then Bad(-2)
      else if |data| < total.value then NeedMore
      else Done(total.value)
  }

  /** What the client makes of the server's whole stream: the method reply, then the reply. */
  function Verdict(w: Bytes): (c: Check)
    ensures c.Done? ==> 2 <= c.total <= |w|
  {
    match CheckSocks5HandshakeResult(w)
    case Done(k) => (match CheckSocks5RspResult(w[2..]) case Done(n) => Done(2 + n) case c => c)
    case c => c
  }

  /** The client gives up exactly when the method reply is another than 5, 0, or, ten bytes behind it
      being there, the reply's code is not success or its address type unknown. */
  lemma GivesUpIff(w: Bytes)
    ensures Verdict(w).Bad? <==>
              |w| >= 2 && (w[0] != 5 || w[1] != 0 || (|w| >= 12 && (w[3] != 0 || w[5] !in {1, 3, 4})))
  {
    if |w| >= 12 {
      var data := w[2..];
      assert data[1] == w[3] && data[3] == w[5];
    }
  }

  /** A verdict reached on a part of the stream is the verdict on all of it. */
  lemma VerdictByPart(w: Bytes, k: nat)
    requires k <= |w| && Verdict(w[..k]) != NeedMore
    ensures Verdict(w[..k]) == Verdict(w)
  {
    if k >= 2 {
      assert w[..k][2..] == w[2..][..k - 2];
    }
  }

  /** While the client waits there is room in its buffer. */
  lemma ShortWhileWaiting(w: Bytes)
    requires Verdict(w) == NeedMore
    ensures |w| < 2 + 4 + 1 + 255 + 2
  {
  }

  /** The client connects exactly when the stream starts with the accepting method reply, then an
      address message the accepting side could parse with its code set to success, and at least ten
      bytes have followed the method reply. */
  lemma ConnectsIff(w: Bytes, t: nat)
    ensures Verdict(w) == Done(t) <==>
              && |w| >= 12 && w[0] == 5 && w[1] == 0 && w[3] == 0
              && ParseReq(w[2..]).Request? && t == 2 + ParseReq(w[2..]).total
  {
    if |w| >= 12 {
      var data := w[2..];
      assert data[1] == w[3];
    }
  }

  /** This repository's accepting side answers a request with the request itself, its code byte set
      to success. The client gets through to whatever follows, unless the request and what follows are
      together shorter than ten bytes: then it goes on waiting. Only names of less than three bytes
      make such requests. */
  lemma EchoedRequest(h: Host, port: nat, rest: Bytes)
    requires HostOk(h) && port < 0x1_0000 && (h.Name? ==> |h.name| < 256)
    ensures var req := BuildSocks5Req(h, port);
            && Verdict([5, 0] + req[1 := 0] + rest) == (if |req| + |rest| >= 10 then Done(2 + |req|) else NeedMore)
            && (|req| < 10 <==> h.Name? && |h.name| < 3)
  {
    hide BuildSocks5Req, PutU16;
    var req := BuildSocks5Req(h, port);
    RequestFields(h, port, rest);
    assert |req| >= 6;
    var w, data := [5, 0] + req[1 := 0] + rest, req[1 := 0] + rest;
    var n := 4 + |AddrBytes(h)|;
    assert (req + rest)[..4][3] == req[3] == data[3] && (req + rest)[4..n][0] == req[4] == data[4];
    assert w[2..] == data;
  }

  // ---------- the client ----------

  class SocksClient {
    const conn: RawConn
    var rbuf: Bytes

    constructor (conn: RawConn, rbuf: Bytes)
      ensures this.conn == conn && this.rbuf == rbuf
    {
      this.conn, this.rbuf := conn, rbuf;
    }

    ghost function Pending(): Bytes
      reads this, conn
    {
      rbuf + conn.inbox
    }

    method Read(b: array<byte>) returns (n: nat, err: Option<NetError>)
      requires b.Length > 0
      modifies this`rbuf, conn`inbox, conn`trouble, b
      ensures n <= b.Length && n <= |old(Pending())|
      ensures b[..n] == old(Pending())[..n] && Pending() == old(Pending())[n..]
      ensures err == None <==> n >= 1
      ensures err == None || err == Some(Timeout) || err == Some(Eof)
      ensures Reported(err, old(conn.trouble), conn.trouble) && (RanDry(err, old(conn.trouble), conn.trouble) ==> Pending() == [])
    {
      if |rbuf| != 0 {
        n := Min(|rbuf|, b.Length);
        TakeFront(rbuf, conn.inbox, n);
        CopyInto(b, 0, rbuf[..n]);
        assert b[..n] == b[0..0 + n];
        rbuf := rbuf[n..];
        return n, None;
      }
      n, err := conn.Read(b, 0);
      assert b[..n] == b[0..0 + n];
      assert old(Pending()) == old(conn.inbox) && Pending() == conn.inbox;
    }
  }

  /** One read behind what the buffer already holds, which any part of the server's stream can be. */
  method ReadMore(conn: RawConn, buffer: array<byte>, index: nat) returns (cnt: nat, err: Option<NetError>)
    requires index < buffer.Length
    modifies conn`inbox, conn`trouble, buffer
    ensures index + cnt <= buffer.Length && buffer[..index + cnt] + conn.inbox == old(buffer[..index] + conn.inbox)
    ensures err == None ==> cnt >= 1
    ensures buffer[..index] == old(buffer[..index])
    ensures err != None ==> cnt == 0 && (err == Some(Timeout) || err == Some(Eof))
    ensures Reported(err, old(conn.trouble), conn.trouble) && (RanDry(err, old(conn.trouble), conn.trouble) ==> conn.inbox == [])
  {
    ghost var held, due := buffer[..index], conn.inbox;
    cnt, err := conn.Read(buffer, index);
    assert buffer[..index + cnt] == held + due[..cnt];
    Assoc(held, due[..cnt], due[cnt..]);
    assert due == due[..cnt] + due[cnt..];
  }

  datatype ShakeError = SendFailed | ReadFailed(err: NetError) | BadMethod | BadReply(code: int)

  /** The read error, if any, that an outcome stands for. */
  predicate ReadErrorOf(err: Option<ShakeError>, before: Trouble, after: Trouble) {
    if err.Some? && err.value.ReadFailed? then (err.value.err == Timeout || err.value.err == Eof) && Reported(Some(err.value.err), before, after)
    else after == before
  }

  /** `handleShake` after parsing the address: greeting and request go out together, the two replies
      are read however the network cuts them, and the client handed over reads exactly what follows
      them. Every failure is the stream's, which is refused or ends too early, or the network's: a
      failed write, or a stall before the replies are complete. */
  method HandleShake(conn: RawConn, h: Host, port: nat) returns (cli: SocksClient?, err: Option<ShakeError>)
    requires HostOk(h)
    modifies conn
    ensures cli == null <==> err != None
    ensures cli != null ==>
              && fresh(cli) && cli.conn == conn && Verdict(old(conn.inbox)).Done?
              && cli.Pending() == old(conn.inbox)[Verdict(old(conn.inbox)).total..]
              && conn.outbox == old(conn.outbox) + [5, 1, 0] + BuildSocks5Req(h, port)
    ensures err == Some(BadMethod) ==> Verdict(old(conn.inbox)) == CheckSocks5HandshakeResult(old(conn.inbox)) && Verdict(old(conn.inbox)).Bad?
    ensures err.Some? && err.value.BadReply? ==> Verdict(old(conn.inbox)) == Bad(err.value.code)
    ensures ReadErrorOf(err, old(conn.trouble), conn.trouble)
    ensures err.Some? && err.value.ReadFailed? ==> Verdict(old(conn.inbox)) == NeedMore || Stalled(Some(err.value.err), old(conn.trouble), conn.trouble)
    ensures err == Some(SendFailed) ==> conn.inbox == old(conn.inbox)
    ensures conn.faults == old(conn.faults) + if err == Some(SendFailed) then 1 else 0
    ensures old(conn.outbox) <= conn.outbox <= old(conn.outbox) + [5, 1, 0] + BuildSocks5Req(h, port)
  {
    hide BuildSocks5Req, Verdict;
    var totalbuf := [5, 1, 0] + BuildSocks5Req(h, port);
    Assoc(conn.outbox, [5, 1, 0], BuildSocks5Req(h, port));
    var e := conn.SendSpecLen(totalbuf);
    if e != None {
      return null, Some(SendFailed);
    }
    var total, spare;
    total, spare, err := ReadReplies(conn);
    cli := null;
    if err == None {
      cli := new SocksClient(conn, spare);
    }
  }

  /** What one turn of the loop decides on the bytes received so far, the method reply having been
      accepted before or not. */
  datatype Turn = Again | Stop(err: ShakeError) | Finish(total: nat)

  /** The tests of one turn; `start` is 2 once the method reply has been sliced off. */
  method Judge(buffer: array<byte>, start: nat, index: nat) returns (start': nat, t: Turn)
    requires start + index <= buffer.Length
    requires start == 0 || (start == 2 && CheckSocks5HandshakeResult(buffer[..start + index]) == Done(2))
    ensures start' == 0 || start' == 2
    ensures start' <= start + index && (start' == 2 <==> CheckSocks5HandshakeResult(buffer[..start + index]) == Done(2))
    ensures var v := Verdict(buffer[..start + index]);
            match t
            case Again => v == NeedMore
            case Stop(e) => v.Bad? && (e == BadReply(v.code) || (e == BadMethod && v == CheckSocks5HandshakeResult(buffer[..start + index])))
            case Finish(n) => v == Done(n)
  {
    hide CheckSocks5RspResult;
    var size := start + index;
    start' := start;
    if start == 0 {
      if index < 2 {
        return start', Again;
      }
      assert buffer[0..2] == buffer[..size][..2];
      if CheckSocks5HandshakeResult(buffer[0..2]) != Done(2) {
        return start', Stop(BadMethod);
      }
      start' := 2;
    }
    assert buffer[2..size] == buffer[..size][2..];
    match CheckSocks5RspResult(buffer[2..size]) {
      case NeedMore => t := Again;
      case Bad(code) => t := Stop(BadReply(code));
      case Done(cret) => t := Finish(2 + cret);
    }
  }

  /** The loop of `handleShake`. */
  method ReadReplies(conn: RawConn) returns (total: nat, spare: Bytes, err: Option<ShakeError>)
    modifies conn`inbox, conn`trouble
    ensures err == None ==> Verdict(old(conn.inbox)) == Done(total) && spare + conn.inbox == old(conn.inbox)[total..]
    ensures err == Some(BadMethod) ==> Verdict(old(conn.inbox)) == CheckSocks5HandshakeResult(old(conn.inbox)) && Verdict(old(conn.inbox)).Bad?
    ensures err.Some? && err.value.BadReply? ==> Verdict(old(conn.inbox)) == Bad(err.value.code)
    ensures ReadErrorOf(err, old(conn.trouble), conn.trouble)
    ensures err.Some? && err.value.ReadFailed? ==> Verdict(old(conn.inbox)) == NeedMore || Stalled(Some(err.value.err), old(conn.trouble), conn.trouble)
    ensures err != Some(SendFailed)
  {
    hide Verdict, CheckSocks5HandshakeResult;
    ghost var w := conn.inbox;
    var buffer := new byte[SOCKS_BUFFER](_ => 0);
    var start: nat, index: nat := 0, 0;
    total, spare := 0, [];
    NothingReadYet(buffer[..0]);
    while true
      invariant start + index < SOCKS_BUFFER && buffer[..start + index] + conn.inbox == w
      invariant Verdict(buffer[..start + index]) == NeedMore
      invariant start == 0 || (start == 2 && CheckSocks5HandshakeResult(buffer[..start + index]) == Done(2))
      invariant conn.trouble == old(conn.trouble)
      decreases SOCKS_BUFFER - (start + index)
    {
      var cnt, e := ReadMore(conn, buffer, start + index);
      ghost var size := start + index + cnt;
      assert buffer[..size][..start + index] == buffer[..start + index];
      PartOfTheStream(w, buffer[..size], conn.inbox, start + index);
      if e != None {
        return total, spare, Some(ReadFailed(e.value));
      }
      var start', turn := Judge(buffer, start, index + cnt);
      match turn {
        case Again =>
          ShortWhileWaiting(buffer[..size]);
          start, index := start', start + index + cnt - start';
        case Stop(error) =>
          return total, spare, Some(error);
        case Finish(n) =>
          TakeFront(buffer[..size], conn.inbox, n);
          assert buffer[..size][n..] == buffer[n..start + index + cnt];
          return n, buffer[n..start + index + cnt], None;
      }
    }
  }

  lemma NothingReadYet(w: Bytes)
    requires w == []
    ensures Verdict(w) == NeedMore
  {
  }

  /** What the part `got` of the stream, with `due` still to come, says about the stream: its verdict,
      the test of its method reply, and that a test passed on its first `k` bytes stays passed. */
  lemma PartOfTheStream(w: Bytes, got: Bytes, due: Bytes, k: nat)
    requires got + due == w && k <= |got|
    ensures Verdict(got) != NeedMore || due == [] ==> Verdict(w) == Verdict(got)
    ensures CheckSocks5HandshakeResult(got) != NeedMore ==> CheckSocks5HandshakeResult(w) == CheckSocks5HandshakeResult(got)
    ensures CheckSocks5HandshakeResult(got[..k]) == Done(2) ==> CheckSocks5HandshakeResult(got) == Done(2)
  {
    hide Verdict;
    assert w[..|got|] == got;
    if due == [] {
      assert got == w;
    } else if Verdict(got) != NeedMore {
      VerdictByPart(w, |got|);
    }
  }
}
