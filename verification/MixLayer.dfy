/** The encrypting, framing connection (mix_layer/crypt_layer.go), proved against `MixStream`. */
module MixLayer {
  import opened Octets
  import opened Codec
  import opened MixStream
  import opened Exchange
  import Frame

  class MixLayerAdaptor<S> {
    const conn: ExchangeConn
    const cfg: Config<S>
    const rtmp: array<byte>
    var ivKey: Bytes
    var wState: S
    var rState: S
    var rbuf: Bytes
    var decbuf: Bytes
    var initRead: bool
    var enableEncode: bool
    var enableDecode: bool

    // History: where in the connection below this layer started, the frame bytes consumed, their
    // plaintext, and how much of it has been handed on.
    ghost const base: nat
    ghost var eaten: Bytes
    ghost var plain: Bytes
    ghost var given: Bytes

    /** While decoding: what was taken from below is the consumed frames, then `rbuf`; what they
        decode to is what was handed on, then `decbuf`; the coder state is that after them. */
    ghost predicate Valid()
      reads this, conn
    {
      && rtmp.Length == Frame.MAX_CRYPT_PACKET_LEN && conn.Valid()
      && base <= |conn.given|
      && (enableDecode ==>
            && Books(rbuf, decbuf)
            && conn.given[base..] == eaten + rbuf)
    }

    ghost predicate Books(rbuf: Bytes, decbuf: Bytes)
      reads this
    {
      && Feed(cfg, Reader(false, cfg.codec.blank), eaten) == Some((ReaderState(), plain))
      && plain == given + decbuf
      && (initRead <==> eaten != []) && (eaten == [] ==> plain == [])
    }

    ghost function ReaderState(): Reader<S>
      reads this
    {
      Reader(initRead, rState)
    }

    ghost function WriterState(): Writer<S>
      reads this
    {
      Writer(ivKey, wState)
    }

    /** The undecoded bytes, buffered or still below. */
    ghost function Raw(): Bytes
      reads this, conn.Repr()
    {
      rbuf + conn.Pending()
    }

    /** The bytes this layer will deliver, whatever the wire holds. */
    ghost function Pending(): Bytes
      reads this, conn.Repr()
    {
      if enableDecode then decbuf + Deframe(cfg, ReaderState(), Raw()) else Raw()
    }

    ghost predicate IsClean()
      reads this, conn.Repr()
    {
      enableDecode ==> Clean(cfg, ReaderState(), Raw())
    }

    /** No complete frame is stranded in `rbuf`. */
    ghost predicate Settled()
      reads this
    {
      TakeFrame(cfg, ReaderState(), rbuf) == Wait
    }

    /** Decoding, on a clean wire, with nothing stranded. */
    ghost predicate Healthy()
      reads this, conn.Repr()
    {
      enableDecode && IsClean() && Settled()
    }

    /** Nothing accepted or stranded yet, on a wire whose first frame both checks will pass. */
    ghost predicate FirstIsCertain()
      reads this, conn.Repr()
    {
      enableDecode && !initRead && Settled() && Opens(cfg, Raw()) && OpensKeyed(cfg, Raw())
    }

    /** Nothing accepted yet, on a wire whose first frame only the decoder will pass. */
    ghost predicate FirstIsDisputed()
      reads this, conn.Repr()
    {
      enableDecode && !initRead && Opens(cfg, Raw()) && !OpensKeyed(cfg, Raw())
    }

    /** The encoder will refuse nothing. */
    ghost predicate Encodes()
      reads this
    {
      enableEncode ==> NeverRefuses(cfg, WriterState())
    }

    /** What reads have met on the raw connection, and how many writes failed there. */
    ghost function Trouble(): Trouble
      reads conn.conn
    {
      conn.conn.trouble
    }

    ghost function Faults(): nat
      reads conn.conn
    {
      conn.conn.faults
    }

    ghost function Out(): Bytes
      reads conn.Repr()
    {
      conn.Out()
    }

    ghost function Wire(): Bytes
      reads conn.Repr()
    {
      conn.Wire()
    }

    /** `CryptWrap` with the key already hashed and the random IV given. */
    constructor CryptWrap(conn: ExchangeConn, cfg: Config<S>, iv: Bytes)
      requires conn.Valid() && cfg.codec.initWrite(cfg.key, iv).Some?
      ensures Valid() && base == |conn.given| && eaten == plain == given == [] && fresh(rtmp) && this.conn == conn && this.cfg == cfg
      ensures enableDecode && enableEncode && !initRead && rbuf == decbuf == []
      ensures ReaderState() == Reader(false, cfg.codec.blank)
      ensures WriterState() == Writer(iv, cfg.codec.initWrite(cfg.key, iv).value)
      ensures Settled() && Raw() == conn.Pending()
    {
      this.conn, this.cfg := conn, cfg;
      rtmp := new byte[Frame.MAX_CRYPT_PACKET_LEN](_ => 0);
      ivKey, wState, rState := iv, cfg.codec.initWrite(cfg.key, iv).value, cfg.codec.blank;
      rbuf, decbuf, initRead, enableEncode, enableDecode := [], [], false, true, true;
      base, eaten, plain, given := |conn.given|, [], [], [];
    }

    method DisableEncode()
      modifies this`enableEncode
      ensures !enableEncode && Raw() == old(Raw()) && Pending() == old(Pending())
      ensures old(Valid()) ==> Valid()
    {
      enableEncode := false;
    }

    /** From here on the reader hands out what it had not yet accepted as frames. */
    method DisableDecode()
      modifies this`enableDecode
      ensures !enableDecode && Pending() == old(Raw())
      ensures old(Valid()) ==> Valid()
    {
      enableDecode := false;
    }

    // ---------- reading ----------

    /** The first loop of `Read`: fetch until the keyed check has an opinion. It ends because a buffer
        that waits for a frame is shorter than the largest one. A timeout in mid-frame keeps what was
        fetched. */
    method Fill() returns (err: Option<NetError>)
      requires Valid() && enableDecode
      modifies this`rbuf, rtmp, conn`rbuf, conn`counter, conn`seen, conn`given, conn.conn`inbox, conn.conn`trouble
      ensures Valid() && Raw() == old(Raw()) && conn.Arrived() == old(conn.Arrived())
      ensures old(rbuf) <= rbuf
      ensures err == None ==> Keyed(rbuf) != Frame.NeedMore
      ensures err != None && rbuf != old(rbuf) ==> Settled()
      ensures err == None || err == Some(Timeout) || err == Some(Eof)
      ensures Reported(err, old(Trouble()), Trouble()) && (RanDry(err, old(Trouble()), Trouble()) ==> conn.Pending() == [])
    {
      hide MixLayerAdaptor.Valid, TakeFrame, Deframe, Frame.CheckHeadFrameWithKey;
      while true
        invariant Valid() && Raw() == old(Raw()) && old(rbuf) <= rbuf && conn.Arrived() == old(conn.Arrived())
        invariant rbuf != old(rbuf) ==> Keyed(rbuf) == Frame.NeedMore && |rbuf| < Frame.MAX_CRYPT_PACKET_LEN
        invariant Trouble() == old(Trouble())
        decreases rbuf == old(rbuf), Frame.MAX_CRYPT_PACKET_LEN - |rbuf|
      {
        KeyedCheck(cfg, ReaderState(), rbuf);
        err := Fetch();
        if err != None {
          return;
        }
        if Keyed(rbuf) != Frame.NeedMore {
          return;
        }
        Frame.WaitingIsShort(cfg.hmac, rbuf, IvLen(cfg, ReaderState()), Frame.MAX_CRYPT_PACKET_LEN, cfg.key);
      }
    }

    /** One read below, appended to `rbuf`. */
    method Fetch() returns (err: Option<NetError>)
      requires Valid() && enableDecode
      modifies this`rbuf, rtmp, conn`rbuf, conn`counter, conn`seen, conn`given, conn.conn`inbox, conn.conn`trouble
      ensures Valid() && Raw() == old(Raw()) && conn.Arrived() == old(conn.Arrived())
      ensures old(rbuf) <= rbuf
      ensures err == None ==> |old(rbuf)| < |rbuf|
      ensures err != None ==> rbuf == old(rbuf)
      ensures err == None || err == Some(Timeout) || err == Some(Eof)
      ensures Reported(err, old(Trouble()), Trouble()) && (RanDry(err, old(Trouble()), Trouble()) ==> conn.Pending() == [])
    {
      hide Feed, Skip;
      ghost var held, before, due := rbuf, conn.given, conn.Pending();
      var index, e := conn.Read(rtmp, 0);
      err := e;
      ghost var got := rtmp[..index];
      assert rtmp[0..0 + index] == got;
      Halves(due, index);
      Assoc(held, got, conn.Pending());
      Assoc(eaten, held, got);
      TailGrows(before, got, base);
      NothingMore(held, got);
      rbuf := rbuf + rtmp[..index];
    }

    function Keyed(w: Bytes): Frame.Check
      reads this
    {
      Frame.CheckHeadFrameWithKey(cfg.hmac, w, IvLen(cfg, Reader(initRead, rState)), Frame.MAX_CRYPT_PACKET_LEN, cfg.key)
    }

    /** The keyed check of the first loop, in explicit terms: it asks for more until n bytes are there, n
        being what the first 4 say, and refuses a length that does not fit or, under a key, a wrong mac
        of that field. */
    lemma KeyedIs(w: Bytes)
      requires Frame.LongDigests(cfg.hmac) && |w| >= 8
      ensures var n, k := BigEndian(w[..4]), if initRead then 0 else cfg.codec.ivLen;
              var headed := 12 + k < n <= 32768 && (cfg.key != [] ==> w[4..8] == cfg.hmac(w[..4], cfg.key)[..4]);
              && (Keyed(w).Bad? <==> !headed)
              && (Keyed(w).Ready? <==> headed && n <= |w|)
              && (Keyed(w).Ready? ==> Keyed(w).total == n)
    {
      hide Frame.CheckHeadFrameWithKey, BigEndian;
      var n, k := BigEndian(w[..4]), IvLen(cfg, Reader(initRead, rState));
      Frame.RefusesIff(cfg.hmac, w, k, Frame.MAX_CRYPT_PACKET_LEN, cfg.key);
      Frame.ChecksIff(cfg.hmac, w, k, Frame.MAX_CRYPT_PACKET_LEN, cfg.key, n);
      if Keyed(w).Ready? { Frame.ChecksIff(cfg.hmac, w, k, Frame.MAX_CRYPT_PACKET_LEN, cfg.key, Keyed(w).total); }
    }

    /** One turn of the second loop of `Read`. */
    method TakeOne() returns (more: bool, err: Option<NetError>)
      requires Valid() && enableDecode
      modifies this`rbuf, this`decbuf, this`initRead, this`rState, this`eaten, this`plain
      ensures Valid() && enableDecode
      ensures match TakeFrame(cfg, old(ReaderState()), old(rbuf))
              case Wait => !more && err == None && unchanged(this)
              case Reject => !more && err == Some(Protocol) && unchanged(this)
              case Accept(n, next, out) =>
                && eaten + rbuf == old(eaten + rbuf)
                && more == out.Some? && err == (if out.Some? then None else Some(Protocol))
                && ReaderState() == next && rbuf == old(rbuf)[n..] && decbuf == old(decbuf) + OrEmpty(out)
    {
      hide Feed, Frame.Decode, Frame.CheckHeadFrameWithKey;
      var ivlen := if initRead then 0 else cfg.codec.ivLen;
      var check := Frame.CheckHeadFrame(cfg.hmac, rbuf, ivlen, Frame.MAX_CRYPT_PACKET_LEN);
      if check.Bad? {
        return false, Some(Protocol);
      }
      if check == Frame.NeedMore {
        return false, None;
      }
      var frameLen := check.total;
      var ivout := new byte[ivlen](_ => 0);
      var encRaw := Frame.DecodeHeadFrame(cfg.hmac, rbuf[..frameLen], ivout, cfg.key);
      if encRaw == None {
        return false, Some(Protocol);
      }
      var coder := Started(cfg, Reader(initRead, rState), ivout[..]);
      var (st, rawWrite) := cfg.codec.decode(coder, encRaw.value);
      Advance(frameLen, st, rawWrite);
      return rawWrite.Some?, if rawWrite.Some? then None else Some(Protocol);
    }

    /** A frame leaves `rbuf` for good, and its plaintext, if the coder produced one, is kept. */
    method Advance(frameLen: nat, st: S, rawWrite: Option<Bytes>)
      requires Valid() && enableDecode
      requires TakeFrame(cfg, ReaderState(), rbuf) == Accept(frameLen, Reader(true, st), rawWrite)
      modifies this`rbuf, this`decbuf, this`initRead, this`rState, this`eaten, this`plain
      ensures Valid()
      ensures ReaderState() == Reader(true, st)
      ensures rbuf == old(rbuf)[frameLen..] && decbuf == old(decbuf) + OrEmpty(rawWrite)
      ensures eaten + rbuf == old(eaten + rbuf)
    {
      hide Feed, TakeFrame;
      FeedOneMore(cfg, Reader(false, cfg.codec.blank), eaten, rbuf);
      Assoc(eaten, rbuf[..frameLen], rbuf[frameLen..]);
      assert rbuf[..frameLen] + rbuf[frameLen..] == rbuf;
      Assoc(given, decbuf, OrEmpty(rawWrite));
      eaten, plain := eaten + rbuf[..frameLen], plain + OrEmpty(rawWrite);
      initRead, rState := true, st;
      rbuf := rbuf[frameLen..];
      match rawWrite {
        case None => assert OrEmpty(rawWrite) == [];
        case Some(data) => decbuf := decbuf + data;
      }
    }

    /** The second loop of `Read`: decode every complete frame held. On any wire it neither loses
        nor reorders what the stream decoder sees; it fails exactly if one of these frames does, and so
        not on a clean wire. */
    method Drain() returns (err: Option<NetError>)
      requires Valid() && enableDecode
      modifies this`rbuf, this`decbuf, this`initRead, this`rState, this`eaten, this`plain
      ensures Valid()
      ensures decbuf + Deframe(cfg, ReaderState(), Raw()) == old(decbuf + Deframe(cfg, ReaderState(), Raw()))
      ensures err == None || err == Some(Protocol)
      ensures err == None <==> old(Decodable(cfg, ReaderState(), rbuf))
      ensures eaten + rbuf == old(eaten + rbuf)
      ensures err == None ==> Settled()
      ensures Untouched(cfg, initRead, eaten, Raw(), old(initRead), old(eaten), old(Raw()))
      ensures old(TakeFrame(cfg, ReaderState(), rbuf).Accept?) ==> initRead
      ensures old(Clean(cfg, ReaderState(), Raw())) ==>
                && err == None && Clean(cfg, ReaderState(), Raw())
                && (old(Keyed(rbuf).Ready?) ==> decbuf != [])
    {
      hide TakeFrame, Clean, Deframe, OrEmpty, Feed, Opens;
      ghost var all := decbuf + Deframe(cfg, ReaderState(), Raw());
      ghost var clean := Clean(cfg, ReaderState(), Raw());
      ghost var ready := Keyed(rbuf).Ready?;
      var more := true;
      err := None;
      while more
        invariant Valid()
        invariant decbuf + Deframe(cfg, ReaderState(), Raw()) == all
        invariant Untouched(cfg, initRead, eaten, Raw(), old(initRead), old(eaten), old(Raw()))
        invariant old(TakeFrame(cfg, ReaderState(), rbuf).Accept?) ==> initRead || (more && ReaderState() == old(ReaderState()) && rbuf == old(rbuf))
        invariant clean ==> err == None && Clean(cfg, ReaderState(), Raw())
        invariant clean && ready ==> decbuf != [] || (more && Keyed(rbuf).Ready?)
        invariant err == None || (err == Some(Protocol) && !more)
        invariant eaten + rbuf == old(eaten + rbuf)
        invariant old(Decodable(cfg, ReaderState(), rbuf)) <==> err == None && Decodable(cfg, ReaderState(), rbuf)
        invariant !more && err == None ==> Settled()
        decreases more, |rbuf|
      {
        ghost var r, held, dec, was := ReaderState(), rbuf, decbuf, eaten;
        TakeStep(cfg, r, held, conn.Pending());
        OpensByPart(cfg, rState, held, conn.Pending());
        more, err := TakeOne();
        ghost var t := TakeFrame(cfg, r, held);
        if t.Accept? {
          Assoc(dec, OrEmpty(t.out), Deframe(cfg, t.next, Raw()));
          Assoc(eaten, rbuf, conn.Pending());
          Assoc(was, held, conn.Pending());
        }
      }
    }

    /** The end of `Read` on the bytes fetched: it fails exactly if they are refused. */
    method DrainHeld() returns (err: Option<NetError>)
      requires Valid() && enableDecode && decbuf == [] && Keyed(rbuf) != Frame.NeedMore
      modifies this`rbuf, this`decbuf, this`initRead, this`rState, this`eaten, this`plain
      ensures Valid()
      ensures decbuf + Deframe(cfg, ReaderState(), Raw()) == old(decbuf + Deframe(cfg, ReaderState(), Raw()))
      ensures err == (if old(Refused(cfg, ReaderState(), rbuf)) then Some(Protocol) else None)
      ensures err == None ==> decbuf != [] && Settled()
      ensures eaten + rbuf == old(eaten + rbuf)
      ensures Untouched(cfg, initRead, eaten, Raw(), old(initRead), old(eaten), old(Raw()))
      ensures old(TakeFrame(cfg, ReaderState(), rbuf).Accept?) ==> initRead
      ensures old(Clean(cfg, ReaderState(), Raw())) && old(Keyed(rbuf)).Ready? ==> err == None && Clean(cfg, ReaderState(), Raw())
    {
      hide TakeFrame, Clean, Deframe, Feed, Opens, Frame.CheckHeadFrameWithKey, Decodable;
      ghost var was, held := eaten, rbuf;
      err := Drain();
      if err == None {
        DecodedBetween(cfg, Reader(false, cfg.codec.blank), was, held, eaten, rbuf);
        if |decbuf| == 0 {
          return Some(Protocol);
        }
      }
    }

    /** The decoding half of `Read`: fetch, then decode, until something is due. */
    method Refill() returns (err: Option<NetError>)
      requires Valid() && enableDecode && decbuf == []
      modifies this`rbuf, this`decbuf, this`initRead, this`rState, this`eaten, this`plain, rtmp, conn`rbuf, conn`counter, conn`seen, conn`given, conn.conn`inbox, conn.conn`trouble
      ensures Valid() && Pending() == old(Pending()) && conn.Arrived() == old(conn.Arrived())
      ensures err == None ==> decbuf != [] && given == old(given)
      ensures err == None || err == Some(Timeout) || err == Some(Eof) || err == Some(Protocol)
      ensures Untouched(cfg, initRead, eaten, Raw(), old(initRead), old(eaten), old(Raw()))
      ensures Reported(err, old(Trouble()), Trouble()) && (RanDry(err, old(Trouble()), Trouble()) && enableDecode ==> conn.Pending() == [] && old(decbuf) == [])
      ensures old(FirstIsCertain()) ==> initRead || (err == Some(Timeout) && !RanDry(err, old(Trouble()), Trouble()))
      ensures old(FirstIsDisputed()) && err == Some(Protocol) && !initRead ==> 8 <= |rbuf| < FirstSize(cfg, Raw())
      ensures err == Some(Protocol) ==> RefusedAfter(cfg, old(ReaderState()), old(eaten), eaten + rbuf)
      ensures old(IsClean()) ==>
                && IsClean()
                && (err == None || err == Some(Timeout) || err == Some(Eof))
                && (old(Settled()) ==> Settled() && (RanDry(err, old(Trouble()), Trouble()) ==> Pending() == []))
    {
      hide TakeFrame, Clean, Feed, Frame.CheckHeadFrameWithKey, Opens, OpensKeyed, FirstSize, Skip;
      err := Fill();
      if !initRead && Opens(cfg, Raw()) && OpensKeyed(cfg, Raw()) { CertainOpening(); }
      if err != None {
        if RanDry(err, old(Trouble()), Trouble()) { assert Raw() == rbuf + [] == rbuf; }
        return;
      }
      if FirstIsDisputed() { DisputedOutcome(cfg, rState, rbuf, conn.Pending()); }
      if Clean(cfg, ReaderState(), Raw()) { CleanHeadNotBad(cfg, ReaderState(), rbuf, conn.Pending()); }
      err := DrainHeld();
    }

    /** After the first loop a certain first frame is held, unless more of the wire is to come. */
    lemma CertainOpening()
      requires !initRead && Opens(cfg, Raw()) && OpensKeyed(cfg, Raw())
      ensures Keyed(rbuf) != Frame.NeedMore || conn.Pending() == [] ==> TakeFrame(cfg, ReaderState(), rbuf).Accept?
    {
      hide TakeFrame, Frame.CheckHeadFrameWithKey, Opens, OpensKeyed;
      KeyedOpening(cfg, rState, rbuf, conn.Pending());
    }

    /** `Read`, on any wire and under any chunking: the bytes returned are the next ones due, and
        an error of any kind costs none. While no frame has been accepted nothing of the wire is
        consumed, a first frame is accepted only where the wire starts with one, and one that both
        checks pass is accepted or waited for. On a clean wire only timeouts and the end of the wire are errors, no complete
        frame is ever left behind, and at the end of the wire everything has been delivered. */
    method Read(b: array<byte>, off: nat) returns (n: nat, err: Option<NetError>)
      requires Valid() && off < b.Length && b != rtmp
      modifies this`rbuf, this`decbuf, this`initRead, this`rState, this`eaten, this`plain, this`given, rtmp, conn`rbuf, conn`counter, conn`seen, conn`given, conn.conn`inbox, conn.conn`trouble, b
      ensures Valid() && conn.Arrived() == old(conn.Arrived())
      ensures off + n <= b.Length && n <= |old(Pending())|
      ensures b[..off] == old(b[..off]) && b[off..off + n] == old(Pending())[..n]
      ensures Pending() == old(Pending())[n..]
      ensures err == None <==> n >= 1
      ensures enableDecode && err == None ==> initRead
      ensures given == if enableDecode then old(given) + b[off..off + n] else old(given)
      ensures err == None || err == Some(Timeout) || err == Some(Eof) || err == Some(Protocol)
      ensures enableDecode ==> Untouched(cfg, initRead, eaten, Raw(), old(initRead), old(eaten), old(Raw()))
      ensures Reported(err, old(Trouble()), Trouble()) && (RanDry(err, old(Trouble()), Trouble()) && enableDecode ==> conn.Pending() == [] && old(decbuf) == [])
      ensures old(FirstIsCertain()) ==> initRead || (err == Some(Timeout) && !RanDry(err, old(Trouble()), Trouble()))
      ensures old(FirstIsDisputed()) && err == Some(Protocol) && !initRead ==> 8 <= |rbuf| < FirstSize(cfg, Raw())
      ensures err == Some(Protocol) ==> RefusedAfter(cfg, old(ReaderState()), old(eaten), eaten + rbuf)
      ensures old(IsClean()) ==>
                && IsClean()
                && (err == None || err == Some(Timeout) || err == Some(Eof))
                && (enableDecode && old(Settled()) ==> Settled() && (RanDry(err, old(Trouble()), Trouble()) ==> Pending() == []))
      ensures !enableDecode && RanDry(err, old(Trouble()), Trouble()) ==> Pending() == []
      ensures old(Healthy()) ==>
                && Healthy()
                && (err == None || err == Some(Timeout) || err == Some(Eof))
                && (RanDry(err, old(Trouble()), Trouble()) ==> Pending() == [])
    {
      hide TakeFrame, Clean, Deframe, Feed, Opens, OpensKeyed, FirstSize, Untouched;
      hide MixLayerAdaptor.FirstIsCertain, MixLayerAdaptor.FirstIsDisputed, MixLayerAdaptor.Settled, MixLayerAdaptor.Raw;
      if enableDecode {
        n, err := ReadDecoded(b, off);
      } else {
        NotCertain();
        n, err := ReadUndecoded(b, off);
      }
    }

    lemma NotCertain()
      requires !enableDecode
      ensures !FirstIsCertain() && !FirstIsDisputed() && Pending() == Raw()
    {
    }

    /** The rest of `Read`, with decoding enabled. */
    method ReadDecoded(b: array<byte>, off: nat) returns (n: nat, err: Option<NetError>)
      requires Valid() && enableDecode && off < b.Length && b != rtmp
      modifies this`rbuf, this`decbuf, this`initRead, this`rState, this`eaten, this`plain, this`given, rtmp, conn`rbuf, conn`counter, conn`seen, conn`given, conn.conn`inbox, conn.conn`trouble, b
      ensures Valid() && conn.Arrived() == old(conn.Arrived())
      ensures off + n <= b.Length && n <= |old(Pending())|
      ensures b[..off] == old(b[..off]) && b[off..off + n] == old(Pending())[..n]
      ensures Pending() == old(Pending())[n..]
      ensures given == old(given) + b[off..off + n]
      ensures err == None <==> n >= 1
      ensures err == None ==> initRead
      ensures err == None || err == Some(Timeout) || err == Some(Eof) || err == Some(Protocol)
      ensures Untouched(cfg, initRead, eaten, Raw(), old(initRead), old(eaten), old(Raw()))
      ensures Reported(err, old(Trouble()), Trouble()) && (RanDry(err, old(Trouble()), Trouble()) ==> conn.Pending() == [] && old(decbuf) == [])
      ensures old(FirstIsCertain()) ==> initRead || (err == Some(Timeout) && !RanDry(err, old(Trouble()), Trouble()))
      ensures old(FirstIsDisputed()) && err == Some(Protocol) && !initRead ==> 8 <= |rbuf| < FirstSize(cfg, Raw())
      ensures err == Some(Protocol) ==> RefusedAfter(cfg, old(ReaderState()), old(eaten), eaten + rbuf)
      ensures old(IsClean()) ==>
                && IsClean()
                && (err == None || err == Some(Timeout) || err == Some(Eof))
                && (old(Settled()) ==> Settled() && (RanDry(err, old(Trouble()), Trouble()) ==> Pending() == []))
    {
      hide TakeFrame, Clean, Deframe, Feed, Opens, OpensKeyed, FirstSize;
      hide MixLayerAdaptor.FirstIsCertain, MixLayerAdaptor.FirstIsDisputed, MixLayerAdaptor.Settled, MixLayerAdaptor.IsClean, MixLayerAdaptor.Raw;
      if |decbuf| == 0 {
        err := Refill();
        if err != None {
          return 0, err;
        }
      }
      assert initRead;
      n := Serve(b, off);
      err := None;
    }

    /** Hand out what is decoded. */
    method Serve(b: array<byte>, off: nat) returns (n: nat)
      requires Valid() && enableDecode && decbuf != [] && off < b.Length
      modifies this`decbuf, this`given, b
      ensures Valid()
      ensures 1 <= n && off + n <= b.Length && n <= |old(Pending())|
      ensures b[..off] == old(b[..off]) && b[off..off + n] == old(Pending())[..n]
      ensures given == old(given) + b[off..off + n]
      ensures Pending() == old(Pending())[n..]
      ensures Raw() == old(Raw()) && IsClean() == old(IsClean()) && Settled() == old(Settled())
    {
      hide Deframe, Clean, TakeFrame, Feed;
      n := Min(|decbuf|, b.Length - off);
      TakeFront(decbuf, Deframe(cfg, ReaderState(), Raw()), n);
      Assoc(given, decbuf[..n], decbuf[n..]);
      CopyInto(b, off, decbuf[..n]);
      given := given + decbuf[..n];
      decbuf := decbuf[n..];
    }

    /** With decoding disabled: first what is still buffered, then the connection below. */
    method ReadUndecoded(b: array<byte>, off: nat) returns (n: nat, err: Option<NetError>)
      requires Valid() && !enableDecode && off < b.Length
      modifies this`rbuf, conn`rbuf, conn`counter, conn`seen, conn`given, conn.conn`inbox, conn.conn`trouble, b
      ensures Valid() && conn.Arrived() == old(conn.Arrived())
      ensures off + n <= b.Length && n <= |old(Raw())|
      ensures b[..off] == old(b[..off]) && b[off..off + n] == old(Raw())[..n]
      ensures Raw() == old(Raw())[n..]
      ensures err == None <==> n >= 1
      ensures err == None || err == Some(Timeout) || err == Some(Eof)
      ensures Reported(err, old(Trouble()), Trouble()) && (RanDry(err, old(Trouble()), Trouble()) ==> Raw() == [])
    {
      if |rbuf| != 0 {
        n := Min(|rbuf|, b.Length - off);
        TakeFront(rbuf, conn.Pending(), n);
        CopyInto(b, off, rbuf[..n]);
        rbuf := rbuf[n..];
        return n, None;
      }
      assert Raw() == conn.Pending();
      n, err := conn.Read(b, off);
    }

    // ---------- writing ----------

    method Write(b: Bytes) returns (n: nat, err: Option<NetError>)
      requires Valid()
      modifies this`wState, this`ivKey, conn`wbuf, conn.conn`outbox, conn.conn`faults
      ensures Valid()
      ensures err == None ==> n == Min(|b|, MAX_PAYLOAD)
      ensures err != None ==> n == 0
      ensures var (next, f) := EmitOne(cfg, enableEncode, old(WriterState()), b[..Min(|b|, MAX_PAYLOAD)]);
              && (f == None ==> err != None)
              && (f.Some? ==> WriterState() == next && (err == None ==> Out() == old(Out()) + f.value))
              && old(Wire()) <= Wire() <= old(Out()) + OrEmpty(f)
              && Faults() == old(Faults()) + (if err != None && f.Some? then 1 else 0)
      ensures old(Encodes()) && b != [] ==> Encodes() && Faults() == old(Faults()) + if err == None then 0 else 1
      ensures if err == None then conn.wbuf == [] else conn.wbuf == [] || conn.wbuf == old(conn.wbuf)
      ensures Raw() == old(Raw()) && Pending() == old(Pending()) && conn.Arrived() == old(conn.Arrived())
      ensures Settled() == old(Settled()) && Healthy() == old(Healthy())
    {
      hide Feed, Deframe, Clean, TakeFrame, NeverRefuses, FrameOne, Skip;
      var data := b[..Min(|b|, MAX_PAYLOAD)];
      if enableEncode && NeverRefuses(cfg, WriterState()) && b != [] { NextNotRefused(cfg, WriterState(), data); }
      if !enableEncode {
        n, err := conn.Write(data);
        return;
      }
      var frame := NextFrame(data);
      if frame == None {
        return 0, Some(Protocol);
      }
      err := conn.SendSpecLen(frame.value);
      n := if err == None then |data| else 0;
    }

    /** The encoded, framed message; the IV goes out with the first. */
    method NextFrame(data: Bytes) returns (frame: Option<Bytes>)
      requires Valid() && enableEncode
      modifies this`wState, this`ivKey
      ensures Valid()
      ensures frame == FrameOne(cfg, old(WriterState()), data).1
      ensures frame.Some? ==> frame.value != [] && WriterState() == FrameOne(cfg, old(WriterState()), data).0
    {
      hide Feed;
      var (st, encData) := cfg.codec.encode(wState, data);
      wState := st;
      if encData == None {
        return None;
      }
      var out := Frame.EncodeHeadFrame(cfg.hmac, encData.value, ivKey, cfg.key);
      ivKey := [];
      return Some(out[..]);
    }

    /** `net_utils.SendSpecLen` over this connection: the frames of the pieces, in order, or an
        error after part of them. */
    method SendSpecLen(buf: Bytes) returns (err: Option<NetError>)
      requires Valid()
      modifies this`wState, this`ivKey, conn`wbuf, conn.conn`outbox, conn.conn`faults
      ensures Valid()
      ensures var (next, bytes) := Emit(cfg, enableEncode, old(WriterState()), buf);
              && (err == None ==> Out() == old(Out()) + bytes && WriterState() == next)
              && old(Wire()) <= Wire() <= old(Out()) + bytes
      ensures old(Faults()) <= Faults() && (err == None ==> Faults() == old(Faults()))
      ensures old(Encodes()) ==> Encodes() && Faults() == old(Faults()) + if err == None then 0 else 1
      ensures conn.wbuf == [] || (conn.wbuf == old(conn.wbuf) && (buf == [] || err != None))
      ensures Raw() == old(Raw()) && Pending() == old(Pending()) && conn.Arrived() == old(conn.Arrived())
      ensures Settled() == old(Settled()) && Healthy() == old(Healthy())
    {
      hide EmitOne, Emit, OrEmpty, MixLayerAdaptor.Valid, MixLayerAdaptor.Raw, MixLayerAdaptor.Pending, MixLayerAdaptor.Settled;
      hide MixLayerAdaptor.Healthy, MixLayerAdaptor.Encodes, MixLayerAdaptor.WriterState;
      ghost var (after, bytes) := Emit(cfg, enableEncode, WriterState(), buf);
      ghost var goal := Out() + bytes;
      var index := 0;
      while index < |buf|
        invariant 0 <= index <= |buf| && Valid()
        invariant old(Wire()) <= Wire() && Faults() == old(Faults()) && (old(Encodes()) ==> Encodes())
        invariant conn.wbuf == [] || (conn.wbuf == old(conn.wbuf) && index == 0)
        invariant Raw() == old(Raw()) && Pending() == old(Pending()) && conn.Arrived() == old(conn.Arrived())
        invariant Settled() == old(Settled()) && Healthy() == old(Healthy())
        invariant Emit(cfg, enableEncode, WriterState(), buf[index..]).0 == after
        invariant Out() + Emit(cfg, enableEncode, WriterState(), buf[index..]).1 == goal
      {
        ghost var rest, out := buf[index..], Out();
        EmitStep(cfg, enableEncode, WriterState(), rest);
        ghost var (next, f) := EmitOne(cfg, enableEncode, WriterState(), rest[..Min(|rest|, MAX_PAYLOAD)]);
        ghost var tail := Emit(cfg, enableEncode, next, rest[Min(|rest|, MAX_PAYLOAD)..]).1;
        Assoc(out, OrEmpty(f), tail);
        SomeIsItsValue(f);
        var cur, e := Write(buf[index..]);
        if e != None {
          PrefixGrows(Wire(), out + OrEmpty(f), tail);
          return e;
        }
        index := index + cur;
        assert rest[cur..] == buf[index..];
      }
      err := None;
      assert buf[index..] == [];
      EmitStep(cfg, enableEncode, WriterState(), []);
      PrefixGrows(Wire(), Wire(), conn.wbuf);
    }
  }

  lemma Halves(w: Bytes, n: nat)
    requires n <= |w|
    ensures w == w[..n] + w[n..]
  {
  }

  lemma TailGrows(before: Bytes, got: Bytes, base: nat)
    requires base <= |before|
    ensures (before + got)[base..] == before[base..] + got
  {
  }

  lemma NothingMore(held: Bytes, got: Bytes)
    ensures held <= held + got && (got == [] ==> held + got == held)
  {
  }
}
