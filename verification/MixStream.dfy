/** The mix layer as functions on byte streams: what its reader makes of any wire, and what its
    writer puts on it. The class `MixLayer.MixLayerAdaptor` is proved against these. */
module MixStream {
  import opened Octets
  import opened Codec
  import Frame

  datatype Config<!S> = Config(hmac: Frame.Hmac, key: Bytes, codec: Codec<S>)

  /** `initRead` and the decoder half of the coder. */
  datatype Reader<S> = Reader(init: bool, st: S)

  /** `ivKey` (empty once sent) and the encoder half of the coder. */
  datatype Writer<S> = Writer(iv: Bytes, st: S)

  const MAX_PAYLOAD: nat := 4 * Frame.MAX_CRYPT_PACKET_LEN / 5

  // ---------- reading ----------

  function IvLen<S>(cfg: Config<S>, r: Reader<S>): nat {
    if r.init then 0 else cfg.codec.ivLen
  }

  /** What the second loop of `Read` does with the head of its buffer: wait for more, give up, or
      drop `size` bytes and, unless the coder fails, deliver `out`. */
  datatype Take<S> = Wait | Reject | Accept(size: nat, next: Reader<S>, out: Option<Bytes>)

  function TakeFrame<S>(cfg: Config<S>, r: Reader<S>, w: Bytes): (t: Take<S>)
    ensures t.Accept? ==> 0 < t.size <= |w| && t.next.init
  {
    match Frame.CheckHeadFrame(cfg.hmac, w, IvLen(cfg, r), Frame.MAX_CRYPT_PACKET_LEN)
    case NeedMore => Wait
    case Bad(_) => Reject
    case Ready(n) =>
      match Frame.Decode(cfg.hmac, w[..n], IvLen(cfg, r), cfg.key)
      case None => Reject
      case Some((iv, enc)) =>
        var (st, out) := cfg.codec.decode(Started(cfg, r, iv), enc);
        Accept(n, Reader(true, st), out)
  }

  /** The decoder state after `InitRead`. Its error is dropped by the source, which tests another
      variable, so a failed initialisation leaves the coder as it was. */
  function Started<S>(cfg: Config<S>, r: Reader<S>, iv: Bytes): S {
    if r.init then r.st
    else match cfg.codec.initRead(cfg.key, iv) case None => r.st case Some(s) => s
  }

  /** The error the source drops after `InitRead` cannot occur for a codec that keeps its contract: with
      the tunnel's key and an IV of its length the decoder is always initialised. */
  lemma InitReadCannotFail<S(!new)>(cfg: Config<S>, paired: (S, S) -> bool, r: Reader<S>, iv: Bytes)
    requires Paired(cfg.codec, paired) && |cfg.key| == KEY_LENGTH && |iv| == cfg.codec.ivLen && !r.init
    ensures cfg.codec.initRead(cfg.key, iv) == Some(Started(cfg, r, iv))
    ensures cfg.codec.initWrite(cfg.key, iv).Some? && paired(cfg.codec.initWrite(cfg.key, iv).value, Started(cfg, r, iv))
  {
    assert Starts(cfg.codec, paired, cfg.key, iv);
  }

  /** The reader takes a frame exactly if all of it is there, its length is more than the overhead and at
      most 32768, and its last 4 bytes are the front of the keyed digest of all before them (section 5 of
      RFC 2104); the first one carries the IV that starts the decoder, and the decoder runs on what lies
      between. It gives up exactly on another length, or a wrong mac on a complete frame. */
  lemma TakesOnlyAuthentic<S>(cfg: Config<S>, r: Reader<S>, w: Bytes)
    requires Frame.LongDigests(cfg.hmac)
    ensures var t, k := TakeFrame(cfg, r, w), if r.init then 0 else cfg.codec.ivLen;
            if |w| < 4 then t == Wait
            else
              var n := BigEndian(w[..4]);
              var fits := 12 + k < n <= 32768;
              && (t.Reject? <==> !fits || (n <= |w| && w[n - 4..n] != cfg.hmac(w[..n - 4], cfg.key)[..4]))
              && (t.Accept? <==> fits && n <= |w| && w[n - 4..n] == cfg.hmac(w[..n - 4], cfg.key)[..4])
              && (t.Accept? ==>
                    var (st, out) := cfg.codec.decode(if r.init then r.st else OrElse(cfg.codec.initRead(cfg.key, w[8..8 + k]), r.st), w[8 + k..n - 4]);
                    t.size == n && t.next == Reader(true, st) && t.out == out)
  {
    hide Frame.CheckHeadFrameWithKey, Frame.Decode, Frame.Mac, GetU32, BigEndian;
    var k := IvLen(cfg, r);
    Frame.RefusesIff(cfg.hmac, w, k, Frame.MAX_CRYPT_PACKET_LEN, []);
    var c := Frame.CheckHeadFrame(cfg.hmac, w, k, Frame.MAX_CRYPT_PACKET_LEN);
    if c.Ready? { Frame.ChecksIff(cfg.hmac, w, k, Frame.MAX_CRYPT_PACKET_LEN, [], c.total); }
    if |w| >= 4 {
      var n := BigEndian(w[..4]);
      Frame.ChecksIff(cfg.hmac, w, k, Frame.MAX_CRYPT_PACKET_LEN, [], n);
      if 12 + k < n <= |w| && n <= 32768 {
        var f := w[..n];
        var iv, enc := w[8..8 + k], w[8 + k..n - 4];
        assert f[..4] == w[..4] && f[n - 4..] == w[n - 4..n] && f[..n - 4] == w[..n - 4];
        assert f[8..n - 4] == iv + enc;
        Frame.DecodesIff(cfg.hmac, f, k, cfg.key, iv, enc);
        if Frame.Decode(cfg.hmac, f, k, cfg.key).Some? {
          var (iv', enc') := Frame.Decode(cfg.hmac, f, k, cfg.key).value;
          Frame.DecodesIff(cfg.hmac, f, k, cfg.key, iv', enc');
        }
      }
    } else {
      ShortWaits(cfg, r, w);
    }
  }

  lemma ShortWaits<S>(cfg: Config<S>, r: Reader<S>, w: Bytes)
    requires |w| < 4
    ensures TakeFrame(cfg, r, w) == Wait
  {
  }

  function OrElse<T>(x: Option<T>, y: T): T {
    match x case None => y case Some(v) => v
  }

  /** The wire starts with a complete frame that the decoder accepts as the first of a connection. */
  predicate Opens<S>(cfg: Config<S>, w: Bytes) {
    TakeFrame(cfg, Reader(false, cfg.codec.blank), w).Accept?
  }

  /** The wire starts with a complete frame that the keyed check lets pass as the first. */
  predicate OpensKeyed<S>(cfg: Config<S>, w: Bytes) {
    Frame.CheckHeadFrameWithKey(cfg.hmac, w, cfg.codec.ivLen, Frame.MAX_CRYPT_PACKET_LEN, cfg.key).Ready?
  }

  /** How reading may change what has been consumed (`eaten`) and what is still undecoded (`raw`): no
      byte is lost between them, none is consumed before a first frame is accepted, and a first frame is
      accepted only on a wire that starts with one. */
  ghost predicate Untouched<S>(cfg: Config<S>, init: bool, eaten: Bytes, raw: Bytes, init0: bool, eaten0: Bytes, raw0: Bytes) {
    && (init0 ==> init)
    && eaten + raw == eaten0 + raw0
    && (!init ==> eaten == eaten0 && raw == raw0)
    && (init && !init0 ==> Opens(cfg, raw0))
  }

  /** Everything the reader will ever deliver from wire `w`, honest or not. */
  function Deframe<S>(cfg: Config<S>, r: Reader<S>, w: Bytes): Bytes
    decreases |w|
  {
    match TakeFrame(cfg, r, w)
    case Accept(n, next, out) => OrEmpty(out) + Deframe(cfg, next, w[n..])
    case _ => []
  }

  /** Every complete frame of `w` is accepted and decodes to data, up to bytes that hold none. */
  predicate Decodable<S>(cfg: Config<S>, r: Reader<S>, w: Bytes)
    decreases |w|
  {
    match TakeFrame(cfg, r, w)
    case Wait => true
    case Reject => false
    case Accept(n, next, out) => out.Some? && Decodable(cfg, next, w[n..])
  }

  /** What makes a read fail with a protocol error: the keyed check has an opinion of the bytes held, and
      one of their frames does not decode, or they come to nothing. */
  ghost predicate Refused<S>(cfg: Config<S>, r: Reader<S>, held: Bytes) {
    && Frame.CheckHeadFrameWithKey(cfg.hmac, held, IvLen(cfg, r), Frame.MAX_CRYPT_PACKET_LEN, cfg.key) != Frame.NeedMore
    && (Decodable(cfg, r, held) ==> Deframe(cfg, r, held) == [])
  }

  /** The bytes taken beyond `was` are refused. */
  ghost predicate RefusedAfter<S>(cfg: Config<S>, r: Reader<S>, was: Bytes, now: Bytes) {
    exists held: Bytes :: now == was + held && Refused(cfg, r, held)
  }

  /** A wire on which the reader meets no protocol error: whole frames that check with the key and
      decode to data, then at most the beginning of another. */
  predicate Clean<S>(cfg: Config<S>, r: Reader<S>, w: Bytes)
    decreases |w|
  {
    match Frame.CheckHeadFrameWithKey(cfg.hmac, w, IvLen(cfg, r), Frame.MAX_CRYPT_PACKET_LEN, cfg.key)
    case NeedMore => true
    case Bad(_) => false
    case Ready(n) =>
      match TakeFrame(cfg, r, w)
      case Accept(size, next, Some(out)) => size == n && out != [] && Clean(cfg, next, w[size..])
      case _ => false
  }

  /** The reader's decision depends only on bytes it holds: once made on part of the wire it is the
      decision on the whole wire. */
  lemma TakeIsLocal<S>(cfg: Config<S>, r: Reader<S>, w: Bytes, k: nat)
    requires k <= |w|
    ensures TakeFrame(cfg, r, w[..k]) != Wait ==> TakeFrame(cfg, r, w[..k]) == TakeFrame(cfg, r, w)
    ensures TakeFrame(cfg, r, w).Accept? && TakeFrame(cfg, r, w).size <= k
            ==> TakeFrame(cfg, r, w[..k]) == TakeFrame(cfg, r, w)
  {
    Frame.CheckIsStable(cfg.hmac, w, k, IvLen(cfg, r), Frame.MAX_CRYPT_PACKET_LEN, []);
    match Frame.CheckHeadFrame(cfg.hmac, w, IvLen(cfg, r), Frame.MAX_CRYPT_PACKET_LEN)
    case Ready(n) => if n <= k { assert w[..k][..n] == w[..n]; }
    case _ =>
  }

  /** The keyed check and the unkeyed one delimit the same frame; the keyed one only adds refusals. */
  lemma KeyedCheck<S>(cfg: Config<S>, r: Reader<S>, w: Bytes)
    ensures var keyed := Frame.CheckHeadFrameWithKey(cfg.hmac, w, IvLen(cfg, r), Frame.MAX_CRYPT_PACKET_LEN, cfg.key);
            && (keyed == Frame.NeedMore ==> TakeFrame(cfg, r, w) == Wait)
            && (keyed.Ready? && TakeFrame(cfg, r, w).Accept? ==> TakeFrame(cfg, r, w).size == keyed.total)
            && (keyed.Ready? ==> TakeFrame(cfg, r, w) != Wait)
  {
  }

  /** One turn of the reader over the bytes it holds (`held`, with `below` still to be fetched):
      what is due is preserved, and a clean wire neither rejects nor fails to decode. */
  lemma TakeStep<S>(cfg: Config<S>, r: Reader<S>, held: Bytes, below: Bytes)
    ensures var t, w := TakeFrame(cfg, r, held), held + below;
            && (t.Accept? ==> Deframe(cfg, r, w) == OrEmpty(t.out) + Deframe(cfg, t.next, held[t.size..] + below))
            && (t.Accept? && Clean(cfg, r, w) ==> t.out.Some? && t.out.value != [] && OrEmpty(t.out) == t.out.value && Clean(cfg, t.next, held[t.size..] + below))
            && (t.Reject? ==> !Clean(cfg, r, w))
            && (t.Wait? && Clean(cfg, r, w) ==>
                  !Frame.CheckHeadFrameWithKey(cfg.hmac, held, IvLen(cfg, r), Frame.MAX_CRYPT_PACKET_LEN, cfg.key).Ready?)
  {
    var w := held + below;
    assert w[..|held|] == held;
    TakeIsLocal(cfg, r, w, |held|);
    KeyedCheck(cfg, r, held);
    KeyedCheck(cfg, r, w);
    var t := TakeFrame(cfg, r, held);
    if t.Accept? {
      assert w[t.size..] == held[t.size..] + below;
    }
  }

  /** On a clean wire the keyed check never refuses what is held. */
  lemma CleanHeadNotBad<S>(cfg: Config<S>, r: Reader<S>, held: Bytes, below: Bytes)
    requires Clean(cfg, r, held + below)
    ensures !Frame.CheckHeadFrameWithKey(cfg.hmac, held, IvLen(cfg, r), Frame.MAX_CRYPT_PACKET_LEN, cfg.key).Bad?
  {
    var w := held + below;
    assert w[..|held|] == held;
    Frame.CheckIsStable(cfg.hmac, w, |held|, IvLen(cfg, r), Frame.MAX_CRYPT_PACKET_LEN, cfg.key);
  }

  /** The start of a clean wire: a length that fits and, under a key, the front of that field's keyed digest;
      and a complete frame is one the reader takes and decodes to data, a clean wire behind it. */
  lemma CleanMeans<S>(cfg: Config<S>, r: Reader<S>, w: Bytes)
    requires Frame.LongDigests(cfg.hmac) && |w| >= 8
    ensures var n, k := BigEndian(w[..4]), if r.init then 0 else cfg.codec.ivLen;
            var headed := 12 + k < n <= 32768 && (cfg.key != [] ==> w[4..8] == cfg.hmac(w[..4], cfg.key)[..4]);
            && (n > |w| ==> (Clean(cfg, r, w) <==> headed))
            && (n <= |w| ==> (Clean(cfg, r, w) <==>
                  headed && var t := TakeFrame(cfg, r, w); t.Accept? && t.out.Some? && t.out.value != [] && Clean(cfg, t.next, w[n..])))
  {
    hide Frame.CheckHeadFrameWithKey, TakeFrame, BigEndian;
    var n, k := BigEndian(w[..4]), IvLen(cfg, r);
    var c := Frame.CheckHeadFrameWithKey(cfg.hmac, w, k, Frame.MAX_CRYPT_PACKET_LEN, cfg.key);
    Frame.RefusesIff(cfg.hmac, w, k, Frame.MAX_CRYPT_PACKET_LEN, cfg.key);
    Frame.ChecksIff(cfg.hmac, w, k, Frame.MAX_CRYPT_PACKET_LEN, cfg.key, n);
    if c.Ready? { Frame.ChecksIff(cfg.hmac, w, k, Frame.MAX_CRYPT_PACKET_LEN, cfg.key, c.total); }
    KeyedCheck(cfg, r, w);
  }

  /** Bytes that arrive later never change what was delivered. */
  lemma {:induction false} DeframeMonotone<S>(cfg: Config<S>, r: Reader<S>, w: Bytes, k: nat)
    requires k <= |w|
    ensures Deframe(cfg, r, w[..k]) <= Deframe(cfg, r, w)
    decreases |w|
  {
    hide TakeFrame;
    TakeIsLocal(cfg, r, w, k);
    match TakeFrame(cfg, r, w[..k])
    case Accept(n, next, out) =>
      DeframeMonotone(cfg, next, w[n..], k - n);
      assert w[..k][n..] == w[n..][..k - n];
    case _ =>
  }

  /** A first frame the decoder accepts against the keyed check has a wrong header mac, and the fate
      of such a wire hangs on where the first fetches stop: before 8 bytes the reader goes on fetching,
      short of the frame it gives up and consumes nothing, and from there on it accepts the frame. */
  lemma DisputedByChunking<S>(cfg: Config<S>, w: Bytes, k: nat)
    requires Opens(cfg, w) && !OpensKeyed(cfg, w) && k <= |w|
    ensures var r := Reader(false, cfg.codec.blank); var n := TakeFrame(cfg, r, w).size;
            var keyed := Frame.CheckHeadFrameWithKey(cfg.hmac, w[..k], IvLen(cfg, r), Frame.MAX_CRYPT_PACKET_LEN, cfg.key);
            && 8 < n && w[4..8] != Frame.Mac(cfg.hmac, w[..4], cfg.key)
            && (k < 8 ==> keyed == Frame.NeedMore)
            && (8 <= k ==> keyed.Bad?)
            && (k < n ==> TakeFrame(cfg, r, w[..k]) == Wait)
            && (n <= k ==> TakeFrame(cfg, r, w[..k]) == TakeFrame(cfg, r, w))
  {
    TakeIsLocal(cfg, Reader(false, cfg.codec.blank), w, k);
    if k >= 4 { assert w[..k][..4] == w[..4]; }
    if k >= 8 { assert w[..k][4..8] == w[4..8]; }
  }

  /** Of a reader on such a wire that has stopped fetching: it accepts the frame exactly if it holds all of
      it, and else gives up holding at least 8 bytes. */
  lemma DisputedOutcome<S>(cfg: Config<S>, st: S, held: Bytes, below: Bytes)
    requires Opens(cfg, held + below) && !OpensKeyed(cfg, held + below)
    requires Frame.CheckHeadFrameWithKey(cfg.hmac, held, cfg.codec.ivLen, Frame.MAX_CRYPT_PACKET_LEN, cfg.key) != Frame.NeedMore
    ensures |held| >= 8
    ensures TakeFrame(cfg, Reader(false, st), held).Accept? <==> FirstSize(cfg, held + below) <= |held|
  {
    hide TakeFrame, Frame.CheckHeadFrameWithKey;
    var w := held + below;
    assert w[..|held|] == held;
    DisputedByChunking(cfg, w, |held|);
    OpensForAnyState(cfg, st, held);
  }

  /** The size of the first frame, if the wire opens with one. */
  function FirstSize<S>(cfg: Config<S>, w: Bytes): nat {
    match TakeFrame(cfg, Reader(false, cfg.codec.blank), w)
    case Accept(n, _, _) => n
    case _ => 0
  }

  /** Such a wire: a frame with any wrong header mac under a right trailing mac, whatever follows it. */
  lemma WrongHeaderMacDisputed<S>(cfg: Config<S>, src: Bytes, iv: Bytes, wrong: Bytes, rest: Bytes)
    requires cfg.key != [] && src != [] && |iv| == cfg.codec.ivLen && Frame.Total(src, iv) <= Frame.MAX_CRYPT_PACKET_LEN
    requires |wrong| == 4 && wrong != Frame.Mac(cfg.hmac, PutU32(Frame.Total(src, iv)), cfg.key)
    ensures var head := PutU32(Frame.Total(src, iv)) + wrong + iv + src;
            var w := head + Frame.Mac(cfg.hmac, head, cfg.key) + rest;
            Opens(cfg, w) && !OpensKeyed(cfg, w)
  {
    var head := PutU32(Frame.Total(src, iv)) + wrong + iv + src;
    var f := head + Frame.Mac(cfg.hmac, head, cfg.key);
    var w, r := f + rest, Reader(false, cfg.codec.blank);
    Frame.HeaderMacNotRechecked(cfg.hmac, src, iv, cfg.key, wrong);
    Frame.CheckIsStable(cfg.hmac, w, |f|, |iv|, Frame.MAX_CRYPT_PACKET_LEN, cfg.key);
    assert w[..|f|] == f && f[..4] == PutU32(Frame.Total(src, iv));
    GetPutU32(Frame.Total(src, iv));
    assert f[..|f|] == f;
    TakeIsLocal(cfg, r, w, |f|);
  }

  /** A reader that has not accepted a frame yet accepts the first as a fresh one would. */
  lemma OpensForAnyState<S>(cfg: Config<S>, st: S, w: Bytes)
    ensures TakeFrame(cfg, Reader(false, st), w).Accept? <==> Opens(cfg, w)
  {
  }

  /** Once the keyed check passes a first frame that the decoder accepts, holding it means taking it;
      and fetching stops only when it is held. */
  lemma KeyedOpening<S>(cfg: Config<S>, st: S, held: Bytes, below: Bytes)
    requires Opens(cfg, held + below) && OpensKeyed(cfg, held + below)
    ensures var keyed := Frame.CheckHeadFrameWithKey(cfg.hmac, held, cfg.codec.ivLen, Frame.MAX_CRYPT_PACKET_LEN, cfg.key);
            keyed != Frame.NeedMore ==> TakeFrame(cfg, Reader(false, st), held).Accept?
    ensures below == [] ==> TakeFrame(cfg, Reader(false, st), held).Accept?
  {
    var w := held + below;
    assert w[..|held|] == held;
    Frame.CheckIsStable(cfg.hmac, w, |held|, cfg.codec.ivLen, Frame.MAX_CRYPT_PACKET_LEN, cfg.key);
    TakeIsLocal(cfg, Reader(false, st), w, |held|);
    OpensForAnyState(cfg, st, w);
    KeyedCheck(cfg, Reader(false, st), w);
    if below == [] { assert held == w; }
  }

  /** What is accepted on the bytes held is accepted on the wire. */
  lemma OpensByPart<S>(cfg: Config<S>, st: S, held: Bytes, below: Bytes)
    ensures TakeFrame(cfg, Reader(false, st), held).Accept? ==> Opens(cfg, held + below)
  {
    var w := held + below;
    assert w[..|held|] == held;
    TakeIsLocal(cfg, Reader(false, st), w, |held|);
    OpensForAnyState(cfg, st, w);
  }

  // ---------- consumed frames ----------

  /** Consuming exactly the bytes `c` as whole frames: the state after, and the plaintext. */
  function Feed<S>(cfg: Config<S>, r: Reader<S>, c: Bytes): Option<(Reader<S>, Bytes)>
    decreases |c|
  {
    if c == [] then Some((r, []))
    else
      var t := TakeFrame(cfg, r, c);
      if !t.Accept? then None
      else
        var rest := Feed(cfg, t.next, c[t.size..]);
        if rest == None then None else Some((rest.value.0, OrEmpty(t.out) + rest.value.1))
  }

  /** What was consumed no longer matters beyond the state it left. */
  lemma {:induction false} FeedThenDeframe<S>(cfg: Config<S>, r: Reader<S>, c: Bytes, x: Bytes)
    requires Feed(cfg, r, c).Some?
    ensures Clean(cfg, r, c + x) ==> Clean(cfg, Feed(cfg, r, c).value.0, x)
    ensures Deframe(cfg, r, c + x) == Feed(cfg, r, c).value.1 + Deframe(cfg, Feed(cfg, r, c).value.0, x)
    decreases |c|
  {
    if c == [] {
      assert c + x == x;
    } else {
      var t := TakeFrame(cfg, r, c);
      TakeStep(cfg, r, c, x);
      FeedThenDeframe(cfg, t.next, c[t.size..], x);
      var rest := Feed(cfg, t.next, c[t.size..]).value;
      Assoc(OrEmpty(t.out), rest.1, Deframe(cfg, rest.0, x));
    }
  }

  /** Consuming one more frame. */
  lemma {:induction false} FeedOneMore<S>(cfg: Config<S>, r: Reader<S>, c: Bytes, w: Bytes)
    requires Feed(cfg, r, c).Some? && TakeFrame(cfg, Feed(cfg, r, c).value.0, w).Accept?
    ensures var (r', d) := Feed(cfg, r, c).value;
            var t := TakeFrame(cfg, r', w);
            Feed(cfg, r, c + w[..t.size]) == Some((t.next, d + OrEmpty(t.out)))
    decreases |c|
  {
    hide TakeFrame;
    var (r', d) := Feed(cfg, r, c).value;
    var t := TakeFrame(cfg, r', w);
    var f := w[..t.size];
    if c == [] {
      assert c + f == f;
      TakeIsLocal(cfg, r, w, t.size);
      assert f != [] && f[t.size..] == [];
      assert Feed(cfg, t.next, []) == Some((t.next, []));
      assert OrEmpty(t.out) + [] == OrEmpty(t.out) == [] + OrEmpty(t.out);
    } else {
      var u := TakeFrame(cfg, r, c);
      assert (c + f)[..|c|] == c;
      TakeIsLocal(cfg, r, c + f, |c|);
      FeedOneMore(cfg, u.next, c[u.size..], w);
      assert (c + f)[u.size..] == c[u.size..] + f;
      var rest := Feed(cfg, u.next, c[u.size..]).value;
      Assoc(OrEmpty(u.out), rest.1, OrEmpty(t.out));
    }
  }

  /** From one consumed part of a wire to a longer one, behind which no frame is held: the plaintext grows by
      what the bytes between decode to. */
  lemma DecodedBetween<S>(cfg: Config<S>, start: Reader<S>, c: Bytes, held: Bytes, c': Bytes, rest: Bytes)
    requires Feed(cfg, start, c).Some? && Feed(cfg, start, c').Some? && c + held == c' + rest
    requires TakeFrame(cfg, Feed(cfg, start, c').value.0, rest) == Wait
    ensures Feed(cfg, start, c').value.1 == Feed(cfg, start, c).value.1 + Deframe(cfg, Feed(cfg, start, c).value.0, held)
  {
    hide Feed, TakeFrame, Clean;
    FeedThenDeframe(cfg, start, c, held);
    FeedThenDeframe(cfg, start, c', rest);
  }

  // ---------- writing ----------

  /** One `Write`: the coder, then the frame. The IV goes out with the first frame only. */
  function FrameOne<S>(cfg: Config<S>, ws: Writer<S>, m: Bytes): (Writer<S>, Option<Bytes>) {
    var (st, x) := cfg.codec.encode(ws.st, m);
    match x
    case None => (Writer(ws.iv, st), None)
    case Some(enc) => (Writer([], st), Some(Frame.Encode(cfg.hmac, enc, ws.iv, cfg.key)))
  }

  function WriterAfter<S>(cfg: Config<S>, ws: Writer<S>, ms: seq<Bytes>): Writer<S>
    decreases |ms|
  {
    if ms == [] then ws else WriterAfter(cfg, FrameOne(cfg, ws, ms[0]).0, ms[1..])
  }

  /** The frames of a message history, and the bytes they put on the wire. */
  function Frames<S>(cfg: Config<S>, ws: Writer<S>, ms: seq<Bytes>): seq<Bytes>
    decreases |ms|
  {
    if ms == [] then []
    else [OrEmpty(FrameOne(cfg, ws, ms[0]).1)] + Frames(cfg, FrameOne(cfg, ws, ms[0]).0, ms[1..])
  }

  function FrameStream<S>(cfg: Config<S>, ws: Writer<S>, ms: seq<Bytes>): Bytes {
    Concat(Frames(cfg, ws, ms))
  }

  lemma {:induction false} FramesAppend<S>(cfg: Config<S>, ws: Writer<S>, a: seq<Bytes>, b: seq<Bytes>)
    ensures WriterAfter(cfg, ws, a + b) == WriterAfter(cfg, WriterAfter(cfg, ws, a), b)
    ensures Frames(cfg, ws, a + b) == Frames(cfg, ws, a) + Frames(cfg, WriterAfter(cfg, ws, a), b)
    decreases |a|
  {
    hide FrameOne, OrEmpty;
    if a == [] {
      assert a + b == b;
    } else {
      var (next, f) := FrameOne(cfg, ws, a[0]);
      FramesAppend(cfg, next, a[1..], b);
      assert (a + b)[1..] == a[1..] + b;
      Assoc([OrEmpty(f)], Frames(cfg, next, a[1..]), Frames(cfg, WriterAfter(cfg, ws, a), b));
    }
  }

  lemma FrameStreamAppend<S>(cfg: Config<S>, ws: Writer<S>, a: seq<Bytes>, b: seq<Bytes>)
    ensures FrameStream(cfg, ws, a + b) == FrameStream(cfg, ws, a) + FrameStream(cfg, WriterAfter(cfg, ws, a), b)
  {
    FramesAppend(cfg, ws, a, b);
    ConcatAppend(Frames(cfg, ws, a), Frames(cfg, WriterAfter(cfg, ws, a), b));
  }

  /** How `SendSpecLen` over this layer cuts a buffer: `Write` takes at most MAX_PAYLOAD bytes. */
  function Split(b: Bytes): (ms: seq<Bytes>)
    ensures forall m :: m in ms ==> 1 <= |m| <= MAX_PAYLOAD
  {
    if b == [] then [] else [b[..Min(|b|, MAX_PAYLOAD)]] + Split(b[Min(|b|, MAX_PAYLOAD)..])
  }

  lemma {:induction false} SplitLosesNothing(b: Bytes)
    ensures Concat(Split(b)) == b
  {
    if b != [] {
      SplitLosesNothing(b[Min(|b|, MAX_PAYLOAD)..]);
    }
  }

  /** Pieces of exactly 26214 bytes, and what is left. */
  lemma SplitSizes(b: Bytes)
    ensures |b| > 26214 ==> Split(b) == [b[..26214]] + Split(b[26214..])
    ensures 1 <= |b| <= 26214 ==> Split(b) == [b]
    ensures b == [] ==> Split(b) == []
  {
    hide Split;
    assert MAX_PAYLOAD == 26214;
    SplitStep(b);
    if 1 <= |b| <= 26214 {
      assert b[..|b|] == b && b[|b|..] == [];
      SplitStep(b[|b|..]);
    }
  }

  lemma SplitStep(b: Bytes)
    ensures b == [] ==> Split(b) == []
    ensures b != [] ==> Split(b) == [b[..Min(|b|, MAX_PAYLOAD)]] + Split(b[Min(|b|, MAX_PAYLOAD)..])
  {
  }

  /** What one `Write` emits, and what sending a whole buffer does, with encoding on or off. */
  function EmitOne<S>(cfg: Config<S>, on: bool, ws: Writer<S>, m: Bytes): (Writer<S>, Option<Bytes>) {
    if on then FrameOne(cfg, ws, m) else (ws, Some(m))
  }

  function Emit<S>(cfg: Config<S>, on: bool, ws: Writer<S>, b: Bytes): (Writer<S>, Bytes) {
    if on then (WriterAfter(cfg, ws, Split(b)), FrameStream(cfg, ws, Split(b))) else (ws, b)
  }

  /** With encoding off, a buffer goes out as it is; with it on, each message is encoded in turn and
      framed, the IV in the first frame and in no other. */
  lemma EmitIs<S>(cfg: Config<S>, ws: Writer<S>, b: Bytes)
    ensures Emit(cfg, false, ws, b) == (ws, b)
    ensures b == [] ==> Emit(cfg, true, ws, b) == (ws, [])
    ensures 1 <= |b| <= 26214 && cfg.codec.encode(ws.st, b).1.Some? ==>
              var (st, x) := cfg.codec.encode(ws.st, b);
              Emit(cfg, true, ws, b) == (Writer([], st), Frame.Encode(cfg.hmac, x.value, ws.iv, cfg.key))
  {
    SplitSizes(b);
    if 1 <= |b| <= 26214 && cfg.codec.encode(ws.st, b).1.Some? {
      var (st, x) := cfg.codec.encode(ws.st, b);
      var f := Frame.Encode(cfg.hmac, x.value, ws.iv, cfg.key);
      assert Frames(cfg, ws, [b]) == [f] + Frames(cfg, Writer([], st), [b][1..]) == [f];
      assert WriterAfter(cfg, ws, [b]) == WriterAfter(cfg, Writer([], st), [b][1..]) == Writer([], st);
      OneMessage(f);
    }
  }

  lemma OneMessage(f: Bytes)
    ensures Concat([f]) == f
  {
    assert Concat([f]) == f + [];
  }

  lemma EmitStep<S>(cfg: Config<S>, on: bool, ws: Writer<S>, b: Bytes)
    ensures b == [] ==> Emit(cfg, on, ws, b) == (ws, [])
    ensures b != [] ==>
              var cut := Min(|b|, MAX_PAYLOAD);
              var (next, f) := EmitOne(cfg, on, ws, b[..cut]);
              && Emit(cfg, on, ws, b).0 == Emit(cfg, on, next, b[cut..]).0
              && Emit(cfg, on, ws, b).1 == OrEmpty(f) + Emit(cfg, on, next, b[cut..]).1
  {
    if b != [] {
      var cut := Min(|b|, MAX_PAYLOAD);
      assert Split(b) == [b[..cut]] + Split(b[cut..]);
      assert Split(b)[1..] == Split(b[cut..]);
      assert b == b[..cut] + b[cut..];
    }
  }

  // ---------- the two ends together ----------

  /** The reader is where the writer is: either nothing has crossed and the first frame will carry
      the IV the writer started from, or the two coder states are paired. */
  ghost predicate InStep<S>(cfg: Config<S>, paired: (S, S) -> bool, ws: Writer<S>, r: Reader<S>) {
    if r.init then ws.iv == [] && paired(ws.st, r.st)
    else |ws.iv| == cfg.codec.ivLen && cfg.codec.initWrite(cfg.key, ws.iv) == Some(ws.st)
  }

  ghost predicate Payloads(ms: seq<Bytes>) {
    forall m :: m in ms ==> 1 <= |m| <= MAX_PAYLOAD
  }

  /** The encoder refuses no message of any history that starts here. */
  ghost predicate NeverRefuses<S>(cfg: Config<S>, ws: Writer<S>) {
    forall ms: seq<Bytes>, m: Bytes :: Payloads(ms) && 1 <= |m| <= MAX_PAYLOAD ==> FrameOne(cfg, WriterAfter(cfg, ws, ms), m).1.Some?
  }

  lemma NextNotRefused<S>(cfg: Config<S>, ws: Writer<S>, m: Bytes)
    requires NeverRefuses(cfg, ws) && 1 <= |m| <= MAX_PAYLOAD
    ensures FrameOne(cfg, ws, m).1.Some? && NeverRefuses(cfg, FrameOne(cfg, ws, m).0)
  {
    hide FrameOne;
    var next := FrameOne(cfg, ws, m).0;
    var none: seq<Bytes> := [];
    assert WriterAfter(cfg, ws, none) == ws;
    forall ms: seq<Bytes>, m': Bytes | Payloads(ms) && 1 <= |m'| <= MAX_PAYLOAD
      ensures FrameOne(cfg, WriterAfter(cfg, next, ms), m').1.Some?
    {
      var all := [m] + ms;
      assert all[0] == m && all[1..] == ms;
      assert Payloads(all);
      assert WriterAfter(cfg, ws, all) == WriterAfter(cfg, next, ms);
    }
  }

  /** A writer in step stays in step over any history, with some reader. */
  lemma {:induction false} StaysInStep<S(!new)>(cfg: Config<S>, paired: (S, S) -> bool, ws: Writer<S>, r: Reader<S>, ms: seq<Bytes>)
    returns (r': Reader<S>)
    requires Paired(cfg.codec, paired) && |cfg.key| == KEY_LENGTH && InStep(cfg, paired, ws, r) && Payloads(ms)
    ensures InStep(cfg, paired, WriterAfter(cfg, ws, ms), r')
    decreases |ms|
  {
    hide FrameOne, InStep, Paired, TakeFrame;
    r' := r;
    if ms != [] {
      FrameCrosses(cfg, paired, ws, r, ms[0], []);
      r' := StaysInStep(cfg, paired, FrameOne(cfg, ws, ms[0]).0, TakeFrame(cfg, r, OrEmpty(FrameOne(cfg, ws, ms[0]).1) + []).next, ms[1..]);
    }
  }

  /** A codec that keeps its contract never refuses. */
  lemma InStepNeverRefuses<S(!new)>(cfg: Config<S>, paired: (S, S) -> bool, ws: Writer<S>, r: Reader<S>)
    requires Paired(cfg.codec, paired) && |cfg.key| == KEY_LENGTH && InStep(cfg, paired, ws, r)
    ensures NeverRefuses(cfg, ws)
  {
    hide FrameOne, InStep, Paired, TakeFrame;
    forall ms: seq<Bytes>, m: Bytes | Payloads(ms) && 1 <= |m| <= MAX_PAYLOAD
      ensures FrameOne(cfg, WriterAfter(cfg, ws, ms), m).1.Some?
    {
      var r' := StaysInStep(cfg, paired, ws, r, ms);
      FrameCrosses(cfg, paired, WriterAfter(cfg, ws, ms), r', m, []);
    }
  }

  /** One frame crosses: it fits the peer's limit, is accepted by both checks whatever follows it,
      delivers the message, and leaves the ends in step. */
  lemma FrameCrosses<S(!new)>(cfg: Config<S>, paired: (S, S) -> bool, ws: Writer<S>, r: Reader<S>, m: Bytes, rest: Bytes)
    requires Paired(cfg.codec, paired) && |cfg.key| == KEY_LENGTH && InStep(cfg, paired, ws, r)
    requires 1 <= |m| <= MAX_PAYLOAD
    ensures var (next, f) := FrameOne(cfg, ws, m);
            && f.Some? && |f.value| <= Frame.MAX_CRYPT_PACKET_LEN
            && Frame.CheckHeadFrameWithKey(cfg.hmac, f.value + rest, IvLen(cfg, r), Frame.MAX_CRYPT_PACKET_LEN, cfg.key)
               == Frame.Ready(|f.value|)
            && var t := TakeFrame(cfg, r, f.value + rest);
            && t.Accept? && t.size == |f.value| && t.out == Some(m)
            && InStep(cfg, paired, next, t.next)
  {
    if !r.init { assert Starts(cfg.codec, paired, cfg.key, ws.iv); }
    var st := Started(cfg, r, ws.iv);
    assert paired(ws.st, st);
    assert Crosses(cfg.codec, paired, ws.st, st, m);
    var enc := cfg.codec.encode(ws.st, m).1.value;
    Frame.CheckThenDecode(cfg.hmac, enc, ws.iv, cfg.key, rest);
  }

  /** A strict prefix of an honest frame makes the reader wait. */
  lemma FramePrefixWaits<S(!new)>(cfg: Config<S>, paired: (S, S) -> bool, ws: Writer<S>, r: Reader<S>, m: Bytes, k: nat)
    requires Paired(cfg.codec, paired) && |cfg.key| == KEY_LENGTH && InStep(cfg, paired, ws, r)
    requires 1 <= |m| <= MAX_PAYLOAD
    requires k < |OrEmpty(FrameOne(cfg, ws, m).1)|
    ensures var p := OrEmpty(FrameOne(cfg, ws, m).1)[..k];
            TakeFrame(cfg, r, p) == Wait && Clean(cfg, r, p)
  {
    if !r.init { assert Starts(cfg.codec, paired, cfg.key, ws.iv); }
    FrameCrosses(cfg, paired, ws, r, m, []);
    assert Crosses(cfg.codec, paired, ws.st, Started(cfg, r, ws.iv), m);
    var enc := cfg.codec.encode(ws.st, m).1.value;
    Frame.StrictPrefixNeedsMore(cfg.hmac, enc, ws.iv, cfg.key, k);
  }

  /** The reader's first step on a wire that starts with an honest frame. */
  lemma HonestStep<S(!new)>(cfg: Config<S>, paired: (S, S) -> bool, ws: Writer<S>, r: Reader<S>, m: Bytes, p: Bytes)
    returns (next: Reader<S>)
    requires Paired(cfg.codec, paired) && |cfg.key| == KEY_LENGTH && InStep(cfg, paired, ws, r)
    requires 1 <= |m| <= MAX_PAYLOAD
    requires OrEmpty(FrameOne(cfg, ws, m).1) <= p
    ensures InStep(cfg, paired, FrameOne(cfg, ws, m).0, next)
    ensures var rest := p[|OrEmpty(FrameOne(cfg, ws, m).1)|..];
            && Deframe(cfg, r, p) == m + Deframe(cfg, next, rest)
            && (Clean(cfg, next, rest) ==> Clean(cfg, r, p))
  {
    var f := OrEmpty(FrameOne(cfg, ws, m).1);
    FrameCrosses(cfg, paired, ws, r, m, p[|f|..]);
    assert p == f + p[|f|..];
    next := TakeFrame(cfg, r, p).next;
  }

  /** For every message history and every prefix of its wire: no protocol error, and what is
      delivered is exactly the concatenation of the first j messages, those whose frames are
      complete; all of them when the wire is whole. */
  lemma {:induction false} HonestPrefix<S(!new)>(cfg: Config<S>, paired: (S, S) -> bool, ws: Writer<S>, r: Reader<S>, ms: seq<Bytes>, p: Bytes)
    returns (j: nat)
    requires Paired(cfg.codec, paired) && |cfg.key| == KEY_LENGTH && InStep(cfg, paired, ws, r)
    requires Payloads(ms) && p <= FrameStream(cfg, ws, ms)
    ensures Clean(cfg, r, p)
    ensures j <= |ms| && Deframe(cfg, r, p) == Concat(ms[..j])
    ensures p == FrameStream(cfg, ws, ms) ==> j == |ms|
    decreases |ms|
  {
    hide TakeFrame, FrameOne, InStep, Paired, OrEmpty, Frame.CheckHeadFrameWithKey;
    if ms == [] {
      j := 0;
      EmptyWire(cfg, r);
    } else {
      var m, next := ms[0], FrameOne(cfg, ws, ms[0]).0;
      var f := OrEmpty(FrameOne(cfg, ws, m).1);
      PrefixSplit(p, f, FrameStream(cfg, next, ms[1..]));
      if |p| < |f| {
        FramePrefixWaits(cfg, paired, ws, r, m, |p|);
        j := 0;
      } else {
        var r' := HonestStep(cfg, paired, ws, r, m, p);
        var i := HonestPrefix(cfg, paired, next, r', ms[1..], p[|f|..]);
        j := i + 1;
        assert ms[..j][1..] == ms[1..][..i];
      }
    }
  }

  lemma EmptyWire<S>(cfg: Config<S>, r: Reader<S>)
    ensures Clean(cfg, r, []) && Deframe(cfg, r, []) == []
  {
  }

  /** Whatever prefix of an honest wire the reader has consumed, it is the frames of the first j
      messages, their plaintext is those messages, and the decoder is where the encoder was after
      them; it is initialised exactly when j > 0. */
  lemma {:induction false} HonestFeed<S(!new)>(cfg: Config<S>, paired: (S, S) -> bool, ws: Writer<S>, r: Reader<S>, ms: seq<Bytes>, c: Bytes)
    returns (j: nat)
    requires Paired(cfg.codec, paired) && |cfg.key| == KEY_LENGTH && InStep(cfg, paired, ws, r)
    requires Payloads(ms) && c <= FrameStream(cfg, ws, ms)
    requires Feed(cfg, r, c).Some?
    ensures j <= |ms| && c == FrameStream(cfg, ws, ms[..j]) && Feed(cfg, r, c).value.1 == Concat(ms[..j])
    ensures InStep(cfg, paired, WriterAfter(cfg, ws, ms[..j]), Feed(cfg, r, c).value.0)
    ensures Feed(cfg, r, c).value.0.init <==> r.init || j > 0
    decreases |ms|
  {
    hide TakeFrame, FrameOne, InStep, Paired, OrEmpty;
    if c == [] {
      j := 0;
    } else {
      var m, next := ms[0], FrameOne(cfg, ws, ms[0]).0;
      var f := OrEmpty(FrameOne(cfg, ws, m).1);
      PrefixSplit(c, f, FrameStream(cfg, next, ms[1..]));
      FrameCrosses(cfg, paired, ws, r, m, []);
      if |c| < |f| {
        FramePrefixWaits(cfg, paired, ws, r, m, |c|);
        assert false;
      } else {
        var rest := c[|f|..];
        FrameCrosses(cfg, paired, ws, r, m, rest);
        SomeIsItsValue(FrameOne(cfg, ws, m).1);
        SomeIsItsValue(TakeFrame(cfg, r, c).out);
        var r' := TakeFrame(cfg, r, c).next;
        var i := HonestFeed(cfg, paired, next, r', ms[1..], rest);
        j := i + 1;
        assert ms[..j][1..] == ms[1..][..i] && ms[..j][0] == m;
      }
    }
  }
}
