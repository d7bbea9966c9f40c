/** The authenticated frame of the mix layer (mix_layer/crypt_layer_utils.go):
    length(4) mac(4) iv(variable) data(variable) mac(4). HMAC-SHA1 is any function. */
module Frame {
  import opened Octets

  /** HMAC-SHA1 as an arbitrary function of (data, key), per RFC 2104. */
  type Hmac = (Bytes, Bytes) -> Bytes

  const MAX_CRYPT_PACKET_LEN: nat := 32 * 1024
  const HMAC_LENGTH: nat := 4

  /** `GenHMAC_SHA1_WITH_LENGTH(b, key, HMAC_LENGTH)`: truncate (section 5 of RFC 2104), or pad a short digest. */
  function Mac(h: Hmac, data: Bytes, key: Bytes): (m: Bytes)
    ensures |m| == HMAC_LENGTH
  {
    var mac := h(data, key);
    if HMAC_LENGTH <= |mac| then mac[..HMAC_LENGTH]
    else mac + seq(HMAC_LENGTH - |mac|, _ => (HMAC_LENGTH - |mac|) as byte)
  }

  function Total(src: Bytes, iv: Bytes): nat {
    |src| + HMAC_LENGTH + |iv| + 4 + HMAC_LENGTH
  }

  function HeadOf(h: Hmac, src: Bytes, iv: Bytes, key: Bytes): Bytes {
    var len := PutU32(Total(src, iv));
    len + Mac(h, len, key) + iv + src
  }

  /** The bytes of one frame. */
  function Encode(h: Hmac, src: Bytes, iv: Bytes, key: Bytes): (f: Bytes)
    ensures |f| == Total(src, iv)
  {
    var head := HeadOf(h, src, iv, key);
    head + Mac(h, head, key)
  }

  /** `EncodeHeadFrame` fills one buffer field by field. */
  method EncodeHeadFrame(h: Hmac, src: Bytes, ivin: Bytes, key: Bytes) returns (out: array<byte>)
    ensures fresh(out)
    ensures out[..] == Encode(h, src, ivin, key)
  {
    var total := Total(src, ivin);
    out := new byte[total](_ => 0);
    ghost var len := PutU32(total);
    CopyInto(out, 0, PutU32(total));
    assert out[..4] == len;
    CopyInto(out, 4, Mac(h, out[..4], key));
    assert out[..8] == len + Mac(h, len, key);
    CopyInto(out, 4 + HMAC_LENGTH, ivin);
    assert out[..8 + |ivin|] == len + Mac(h, len, key) + ivin;
    CopyInto(out, 4 + HMAC_LENGTH + |ivin|, src);
    assert out[..total - HMAC_LENGTH] == HeadOf(h, src, ivin, key);
    CopyInto(out, total - HMAC_LENGTH, Mac(h, out[..total - HMAC_LENGTH], key));
    assert out[..] == out[..total - HMAC_LENGTH] + out[total - HMAC_LENGTH..];
  }

  // ---------- checking and decoding ----------

  /** The `(int, error)` pairs of the check functions: 0 is NeedMore, a negative count comes with an error. */
  datatype Check = NeedMore | Bad(code: int) | Ready(total: nat)

  function CheckHeadFrameWithKey(h: Hmac, src: Bytes, ivlen: nat, maxData: nat, key: Bytes): (c: Check)
    ensures c.Ready? ==> 4 + HMAC_LENGTH + ivlen + HMAC_LENGTH < c.total <= |src| && c.total <= maxData
  {
    if |src| < 4 then NeedMore
    else
      var total := GetU32(src);
      if total <= 4 + HMAC_LENGTH + ivlen + HMAC_LENGTH then Bad(-2)
      else if total > maxData then Bad(-1)
      else if |key| != 0 && |src| < 8 then NeedMore
      else if |key| != 0 && Mac(h, src[..4], key) != src[4..8] then Bad(-3)
      else if total > |src| then NeedMore
      else if |src| <= 4 + HMAC_LENGTH + ivlen + HMAC_LENGTH then NeedMore
      else Ready(total)
  }

  /** A buffer that waits for the rest of a frame is shorter than the largest frame, so that what it can
      wait for runs out. */
  lemma WaitingIsShort(h: Hmac, src: Bytes, ivlen: nat, maxData: nat, key: Bytes)
    requires maxData >= 8 && CheckHeadFrameWithKey(h, src, ivlen, maxData, key) == NeedMore
    ensures |src| < maxData
  {
  }

  function CheckHeadFrame(h: Hmac, src: Bytes, ivlen: nat, maxData: nat): (c: Check)
    ensures c.Ready? ==> c.total <= |src|
  {
    CheckHeadFrameWithKey(h, src, ivlen, maxData, [])
  }

  /** `DecodeHeadFrame` on a buffer and an IV length: the IV and the data, or an error. */
  function Decode(h: Hmac, src: Bytes, ivlen: nat, key: Bytes): (r: Option<(Bytes, Bytes)>)
    ensures r.Some? ==> |r.value.0| == ivlen && 0 < |r.value.1| < |src|
  {
    match CheckHeadFrame(h, src, ivlen, MAX_CRYPT_PACKET_LEN)
    case Ready(sz) =>
      if Mac(h, src[..sz - HMAC_LENGTH], key) != src[sz - HMAC_LENGTH..] then None
      else Some((src[4 + HMAC_LENGTH..4 + HMAC_LENGTH + ivlen], src[4 + HMAC_LENGTH + ivlen..sz - HMAC_LENGTH]))
    case _ => None
  }

  /** The Go signature: the IV goes to the caller's buffer. */
  method DecodeHeadFrame(h: Hmac, src: Bytes, ivout: array<byte>, key: Bytes) returns (data: Option<Bytes>)
    modifies ivout
    ensures match Decode(h, src, ivout.Length, key)
            case None => data == None && ivout[..] == old(ivout[..])
            case Some((iv, d)) => data == Some(d) && ivout[..] == iv
  {
    var r := Decode(h, src, ivout.Length, key);
    match r {
      case None =>
        data := None;
      case Some((iv, d)) =>
        forall i | 0 <= i < ivout.Length { ivout[i] := iv[i]; }
        data := Some(d);
    }
  }

  // ---------- the codec is a bijection on what it accepts ----------

  /** The fields of a frame sit where the decoder looks for them, whatever follows the frame. */
  lemma FrameFields(h: Hmac, src: Bytes, iv: Bytes, key: Bytes, rest: Bytes)
    requires Total(src, iv) <= MAX_CRYPT_PACKET_LEN
    ensures var w := Encode(h, src, iv, key) + rest; var n := Total(src, iv);
            && GetU32(w) == n
            && w[..n] == Encode(h, src, iv, key) && w[n..] == rest
            && w[4..8] == Mac(h, w[..4], key)
            && w[n - 4..n] == Mac(h, w[..n - 4], key)
            && w[8..8 + |iv|] == iv && w[8 + |iv|..n - 4] == src
  {
    var n := Total(src, iv);
    var f := Encode(h, src, iv, key);
    var w := f + rest;
    var len := PutU32(n);
    var head := HeadOf(h, src, iv, key);
    assert w[..4] == len;
    GetPutU32(n);
    assert GetU32(w) == GetU32(len);
    assert w[4..8] == Mac(h, len, key);
    assert w[..n] == f && w[n..] == rest;
    assert w[..n - 4] == head;
  }

  /** The peer's check accepts a frame, with any bytes after it, exactly when the frame carries
      data and fits the limit. */
  lemma FrameAcceptedIff(h: Hmac, src: Bytes, iv: Bytes, key: Bytes, rest: Bytes)
    requires Total(src, iv) < 0x1_0000_0000
    ensures CheckHeadFrameWithKey(h, Encode(h, src, iv, key) + rest, |iv|, MAX_CRYPT_PACKET_LEN, key) == Ready(Total(src, iv))
       <==> src != [] && Total(src, iv) <= MAX_CRYPT_PACKET_LEN
  {
    var n := Total(src, iv);
    var w := Encode(h, src, iv, key) + rest;
    GetPutU32(n);
    assert w[..4] == PutU32(n);
    assert GetU32(w) == n;
    if n <= MAX_CRYPT_PACKET_LEN {
      FrameFields(h, src, iv, key, rest);
    }
  }

  /** Digests of at least 4 bytes, as HMAC-SHA1 makes them. */
  ghost predicate LongDigests(h: Hmac) {
    forall data, key :: |h(data, key)| >= HMAC_LENGTH
  }

  /** The mac is the front of the keyed digest of its data; a shorter digest is filled up with copies of
      the missing length. */
  lemma MacIs(h: Hmac, data: Bytes, key: Bytes)
    ensures var d := h(data, key);
            if |d| >= 4 then Mac(h, data, key) == d[..4]
            else Mac(h, data, key)[..|d|] == d && forall i :: |d| <= i < 4 ==> Mac(h, data, key)[i] == 4 - |d|
  {
  }

  /** A frame is its length in network order, the front of that field's keyed digest, the IV, the data,
      and the front of the keyed digest of all before it (section 5 of RFC 2104). */
  lemma FrameIs(h: Hmac, src: Bytes, iv: Bytes, key: Bytes)
    requires LongDigests(h)
    ensures var f := Encode(h, src, iv, key); var n := |f|;
            && n == 12 + |iv| + |src|
            && (n < 0x1_0000_0000 ==> BigEndian(f[..4]) == n)
            && f[4..8] == h(f[..4], key)[..4]
            && f[8..n - 4] == iv + src
            && f[n - 4..] == h(f[..n - 4], key)[..4]
  {
    var f := Encode(h, src, iv, key);
    var n := |f|;
    var head := HeadOf(h, src, iv, key);
    GetPutU32(n);
    GetU32IsBigEndian(f);
    assert f[..4] == PutU32(n) && GetU32(f) == GetU32(f[..4]);
    assert f[4..8] == Mac(h, f[..4], key);
    assert f[..n - 4] == head && f[n - 4..] == Mac(h, head, key);
    assert f[8..n - 4] == iv + src;
  }

  /** The keyed check accepts n bytes exactly if they are all there, n is what the first 4 say, more than
      the overhead and at most the limit, and the next 4 are the front of their keyed digest; without a
      key that last test falls away. */
  lemma ChecksIff(h: Hmac, w: Bytes, ivlen: nat, maxData: nat, key: Bytes, n: nat)
    requires LongDigests(h)
    ensures CheckHeadFrameWithKey(h, w, ivlen, maxData, key) == Ready(n) <==>
              && 12 + ivlen < n <= maxData && n <= |w| && n == BigEndian(w[..4])
              && (key == [] || w[4..8] == h(w[..4], key)[..4])
  {
    if |w| >= 4 { GetU32IsBigEndian(w); }
  }

  /** It refuses exactly if the first 4 bytes say no such n, or the next 4 are there and wrong. */
  lemma RefusesIff(h: Hmac, w: Bytes, ivlen: nat, maxData: nat, key: Bytes)
    requires LongDigests(h)
    ensures CheckHeadFrameWithKey(h, w, ivlen, maxData, key).Bad? <==>
              && |w| >= 4
              && (!(12 + ivlen < BigEndian(w[..4]) <= maxData) || (key != [] && |w| >= 8 && w[4..8] != h(w[..4], key)[..4]))
  {
    if |w| >= 4 { GetU32IsBigEndian(w); }
  }

  /** The decoder accepts exactly a whole frame whose last 4 bytes are the front of the keyed digest of
      all before them, and returns what lies between. */
  lemma DecodesIff(h: Hmac, f: Bytes, ivlen: nat, key: Bytes, iv: Bytes, data: Bytes)
    requires LongDigests(h)
    ensures Decode(h, f, ivlen, key) == Some((iv, data)) <==>
              && 12 + ivlen < |f| <= 32768 && |f| == BigEndian(f[..4])
              && f[|f| - 4..] == h(f[..|f| - 4], key)[..4]
              && |iv| == ivlen && f[8..|f| - 4] == iv + data
  {
    var n := |f|;
    if n >= 4 { GetU32IsBigEndian(f); }
    if n > 12 + ivlen {
      var body := f[8..n - 4];
      assert body[..ivlen] == f[8..8 + ivlen] && body[ivlen..] == f[8 + ivlen..n - 4];
      if |iv| == ivlen { assert (iv + data)[..ivlen] == iv && (iv + data)[ivlen..] == data; }
      assert body == body[..ivlen] + body[ivlen..];
    }
  }

  /** Check, then decode what the check delimits: exactly the IV and data that were encoded. */
  lemma CheckThenDecode(h: Hmac, src: Bytes, iv: Bytes, key: Bytes, rest: Bytes)
    requires src != [] && Total(src, iv) <= MAX_CRYPT_PACKET_LEN
    ensures var w := Encode(h, src, iv, key) + rest;
            && CheckHeadFrameWithKey(h, w, |iv|, MAX_CRYPT_PACKET_LEN, key) == Ready(Total(src, iv))
            && CheckHeadFrame(h, w, |iv|, MAX_CRYPT_PACKET_LEN) == Ready(Total(src, iv))
            && Decode(h, w[..Total(src, iv)], |iv|, key) == Some((iv, src))
  {
    var w := Encode(h, src, iv, key) + rest;
    var n := Total(src, iv);
    FrameFields(h, src, iv, key, rest);
    var f := w[..n];
    assert f[..4] == w[..4] && GetU32(f) == GetU32(w);
    assert f[..n - 4] == w[..n - 4] && f[n - 4..] == w[n - 4..n];
    assert f[8..8 + |iv|] == w[8..8 + |iv|] && f[8 + |iv|..n - 4] == w[8 + |iv|..n - 4];
  }

  /** A frame accepted by the keyed check and by the decoder is the encoding of what they return. */
  lemma AcceptedReencodes(h: Hmac, w: Bytes, ivlen: nat, maxData: nat, key: Bytes, n: nat)
    requires key != []
    requires CheckHeadFrameWithKey(h, w, ivlen, maxData, key) == Ready(n)
    requires Decode(h, w[..n], ivlen, key).Some?
    ensures var (iv, data) := Decode(h, w[..n], ivlen, key).value;
            Encode(h, data, iv, key) == w[..n]
  {
    ReencodesIffHeaderMac(h, w[..n], ivlen, key);
    assert w[..n][..4] == w[..4] && w[..n][4..8] == w[4..8];
  }

  /** What the decoder alone accepts re-encodes to the same bytes exactly when the length field's
      own mac is right: the decoder never looks at it. */
  lemma ReencodesIffHeaderMac(h: Hmac, f: Bytes, ivlen: nat, key: Bytes)
    requires Decode(h, f, ivlen, key).Some?
    ensures |f| >= 8
    ensures var (iv, data) := Decode(h, f, ivlen, key).value;
            Encode(h, data, iv, key) == f <==> f[4..8] == Mac(h, f[..4], key)
  {
    var (iv, data) := Decode(h, f, ivlen, key).value;
    var len, hmac := f[..4], f[4..8];
    var n := GetU32(f);
    PutGetU32(len);
    assert GetU32(len) == n == |f| == Total(data, iv);
    assert f[..n - 4] == len + hmac + iv + data;
    var right := Mac(h, len, key);
    assert HeadOf(h, data, iv, key) == len + right + iv + data;
    if hmac != right {
      var e := Encode(h, data, iv, key);
      assert e[4..8] == right;
    }
  }

  /** Concretely: a frame whose header mac is wrong but whose trailing mac covers it is refused by
      the keyed check and accepted by the decoder. */
  lemma HeaderMacNotRechecked(h: Hmac, src: Bytes, iv: Bytes, key: Bytes, wrong: Bytes)
    requires key != [] && src != [] && Total(src, iv) <= MAX_CRYPT_PACKET_LEN
    requires |wrong| == 4 && wrong != Mac(h, PutU32(Total(src, iv)), key)
    ensures var head := PutU32(Total(src, iv)) + wrong + iv + src;
            var f := head + Mac(h, head, key);
            && CheckHeadFrameWithKey(h, f, |iv|, MAX_CRYPT_PACKET_LEN, key) == Bad(-3)
            && Decode(h, f, |iv|, key) == Some((iv, src))
  {
    var n := Total(src, iv);
    var head := PutU32(n) + wrong + iv + src;
    var f := head + Mac(h, head, key);
    GetPutU32(n);
    assert f[..4] == PutU32(n) && GetU32(f) == GetU32(f[..4]) == n;
    assert f[4..8] == wrong;
    assert f[..n - 4] == head && f[n - 4..] == Mac(h, head, key);
    assert f[8..8 + |iv|] == iv && f[8 + |iv|..n - 4] == src;
  }

  /** A check result, once it is not NeedMore, does not change as more bytes arrive, and bytes that
      are not refused have no refused prefix. */
  lemma CheckIsStable(h: Hmac, w: Bytes, k: nat, ivlen: nat, maxData: nat, key: Bytes)
    requires k <= |w|
    ensures var whole := CheckHeadFrameWithKey(h, w, ivlen, maxData, key);
            var part := CheckHeadFrameWithKey(h, w[..k], ivlen, maxData, key);
            && (part != NeedMore ==> part == whole)
            && (whole.Ready? ==> (part == whole <==> whole.total <= k))
  {
    if k >= 4 {
      assert w[..k][..4] == w[..4];
      assert GetU32(w[..k]) == GetU32(w);
      if k >= 8 { assert w[..k][4..8] == w[4..8]; }
    }
  }

  /** Every strict prefix of a frame asks for more; none is an error. */
  lemma StrictPrefixNeedsMore(h: Hmac, src: Bytes, iv: Bytes, key: Bytes, k: nat)
    requires src != [] && Total(src, iv) <= MAX_CRYPT_PACKET_LEN && k < Total(src, iv)
    ensures CheckHeadFrameWithKey(h, Encode(h, src, iv, key)[..k], |iv|, MAX_CRYPT_PACKET_LEN, key) == NeedMore
    ensures CheckHeadFrame(h, Encode(h, src, iv, key)[..k], |iv|, MAX_CRYPT_PACKET_LEN) == NeedMore
  {
    var f := Encode(h, src, iv, key);
    assert f + [] == f;
    CheckThenDecode(h, src, iv, key, []);
    CheckIsStable(h, f, k, |iv|, MAX_CRYPT_PACKET_LEN, key);
    CheckIsStable(h, f, k, |iv|, MAX_CRYPT_PACKET_LEN, []);
  }
}
