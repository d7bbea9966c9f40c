/** The XOR codec (mix_layer/xor/xor_layer.go): a repeating key whose position carries over
    between messages and returns to 0 once a message ends beyond position 100. */
module XorCodec {
  import opened Octets
  import opened Bits
  import opened Codec

  /** The exclusive or of two bytes. */
  function Xor8(a: byte, b: byte): byte {
    XorBound(a, b, 8);
    assert Pow2(8) == 256;
    Bits.Xor(a, b, 8)
  }

  lemma Xor8Cancel(a: byte, x: byte, y: byte)
    ensures Xor8(Xor8(a, x), y) == a <==> x == y
  {
    assert Pow2(8) == 256;
    XorCancel(a, x, y, 8);
  }

  /** Bit by bit, and so 0 leaves a byte alone. */
  lemma Xor8Is(a: byte, b: byte, i: nat)
    ensures Shr(Xor8(a, b), i) % 2 == 1 <==> i < 8 && (Shr(a, i) % 2 == 1) != (Shr(b, i) % 2 == 1)
    ensures Xor8(0, b) == b
    ensures Xor8(0x5A, 0x0F) == 0x55
  {
    BitsAre(a, b, 8, i);
    assert Pow2(8) == 256;
    XorZero(b, 8);
  }

  lemma {:induction false} XorZero(b: nat, k: nat)
    requires b < Pow2(k)
    ensures Bits.Xor(0, b, k) == b
  {
    if k > 0 { XorZero(b / 2, k - 1); }
  }

  // ---------- one message ----------

  /** The `n` key bytes used from position `loc` on. */
  function Keystream(key: Bytes, loc: nat, n: nat): (ks: Bytes)
    requires key != []
    ensures |ks| == n
  {
    seq(n, i requires 0 <= i < n => key[(loc + i) % |key|])
  }

  function XorBytes(inp: Bytes, key: Bytes, loc: nat): (out: Bytes)
    requires key != []
    ensures |out| == |inp|
  {
    var ks := Keystream(key, loc, |inp|);
    seq(|inp|, i requires 0 <= i < |inp| => Xor8(inp[i], ks[i]))
  }

  function NextIndex(loc: nat, len: nat): nat {
    if loc + len > 100 then 0 else loc + len
  }

  /** Byte i is combined with the key byte at position `loc + i`, the key repeating; so a message of zeros
      shows the key. */
  lemma ByteIs(inp: Bytes, key: Bytes, loc: nat, i: nat)
    requires key != [] && i < |inp|
    ensures XorBytes(inp, key, loc)[i] == Xor8(inp[i], key[(loc + i) % |key|])
    ensures inp[i] == 0 ==> XorBytes(inp, key, loc)[i] == key[(loc + i) % |key|]
  {
    Xor8Is(inp[i], key[(loc + i) % |key|], 0);
  }

  /** The position moves on with every byte of a message, and a message that ends beyond 100 returns it
      to the start. */
  lemma PositionIs(loc: nat, len: nat)
    ensures loc + len <= 100 ==> NextIndex(loc, len) == loc + len
    ensures loc + len >= 101 ==> NextIndex(loc, len) == 0
  {
  }

  /** The loop of `xor`. */
  method XorInto(inp: Bytes, out: array<byte>, key: Bytes, start: nat) returns (loc: nat)
    requires key != [] && out.Length == |inp|
    modifies out
    ensures out[..] == XorBytes(inp, key, start)
    ensures loc == NextIndex(start, |inp|)
  {
    loc := start;
    for i := 0 to |inp|
      invariant loc == start + i
      invariant forall j :: 0 <= j < i ==> out[j] == XorBytes(inp, key, start)[j]
    {
      out[i] := Xor8(inp[i], key[loc % |key|]);
      loc := loc + 1;
    }
    if loc > 100 {
      loc := 0;
    }
  }

  function GenKey(sha: Bytes -> Bytes, key: Bytes, iv: Bytes): Bytes {
    sha(key + iv)
  }

  /** The key bytes, then the IV bytes, digested as one. */
  lemma KeyIs(sha: Bytes -> Bytes, key: Bytes, iv: Bytes, joined: Bytes)
    requires |joined| == |key| + |iv|
    requires forall i :: 0 <= i < |joined| ==> joined[i] == if i < |key| then key[i] else iv[i - |key|]
    ensures GenKey(sha, key, iv) == sha(joined)
  {
    assert joined == key + iv;
  }

  class Xor {
    const sha: Bytes -> Bytes
    var wKey: Bytes
    var rKey: Bytes
    var wIndex: nat
    var rIndex: nat

    constructor (sha: Bytes -> Bytes)
      ensures this.sha == sha && wIndex == rIndex == 0
    {
      this.sha := sha;
      wKey, rKey, wIndex, rIndex := [], [], 0, 0;
    }

    method InitWrite(key: Bytes, iv: Bytes)
      modifies this`wKey, this`wIndex
      ensures wKey == GenKey(sha, key, iv) && wIndex == 0
    {
      wKey, wIndex := GenKey(sha, key, iv), 0;
    }

    method InitRead(key: Bytes, iv: Bytes)
      modifies this`rKey, this`rIndex
      ensures rKey == GenKey(sha, key, iv) && rIndex == 0
    {
      rKey, rIndex := GenKey(sha, key, iv), 0;
    }

    method Encode(input: Bytes) returns (output: array<byte>)
      requires wKey != []
      modifies this`wIndex
      ensures output[..] == XorBytes(input, wKey, old(wIndex))
      ensures wIndex == NextIndex(old(wIndex), |input|)
    {
      output := new byte[|input|](_ => 0);
      wIndex := XorInto(input, output, wKey, wIndex);
    }

    method Decode(input: Bytes) returns (output: array<byte>)
      requires rKey != []
      modifies this`rIndex
      ensures output[..] == XorBytes(input, rKey, old(rIndex))
      ensures rIndex == NextIndex(old(rIndex), |input|)
    {
      output := new byte[|input|](_ => 0);
      rIndex := XorInto(input, output, rKey, rIndex);
    }
  }

  // ---------- message histories ----------

  function EncodeAll(ms: seq<Bytes>, key: Bytes, loc: nat): (cs: seq<Bytes>)
    requires key != []
    ensures |cs| == |ms|
  {
    if ms == [] then []
    else [XorBytes(ms[0], key, loc)] + EncodeAll(ms[1..], key, NextIndex(loc, |ms[0]|))
  }

  /** The key position after a history of messages. */
  function IndexAfter(ms: seq<Bytes>, loc: nat): nat {
    if ms == [] then loc else IndexAfter(ms[1..], NextIndex(loc, |ms[0]|))
  }

  /** Message i is combined from the position the messages before it left, each having moved it on. */
  lemma {:induction false} MessageIs(ms: seq<Bytes>, key: Bytes, loc: nat, i: nat)
    requires key != [] && i < |ms|
    ensures EncodeAll(ms, key, loc)[i] == XorBytes(ms[i], key, IndexAfter(ms[..i], loc))
    ensures IndexAfter(ms[..0], loc) == loc && IndexAfter(ms[..i + 1], loc) == NextIndex(IndexAfter(ms[..i], loc), |ms[i]|)
  {
    assert ms[..i + 1][1..] == ms[1..][..i];
    if i > 0 {
      assert ms[..i][1..] == ms[1..][..i - 1];
      MessageIs(ms[1..], key, NextIndex(loc, |ms[0]|), i - 1);
    }
  }

  lemma XorUndoes(m: Bytes, key: Bytes, loc: nat)
    requires key != []
    ensures XorBytes(XorBytes(m, key, loc), key, loc) == m
  {
    forall i | 0 <= i < |m| ensures XorBytes(XorBytes(m, key, loc), key, loc)[i] == m[i] {
      Xor8Cancel(m[i], Keystream(key, loc, |m|)[i], Keystream(key, loc, |m|)[i]);
    }
  }

  /** Fed the encoder's messages one by one, the decoder reproduces each of them, both ends hold the
      same position before every message, and that position never leaves 0..100. */
  lemma {:induction false} XorStaysInStep(ms: seq<Bytes>, key: Bytes, loc: nat)
    requires key != [] && loc <= 100
    ensures EncodeAll(EncodeAll(ms, key, loc), key, loc) == ms
    ensures forall i :: 0 <= i <= |ms| ==>
              IndexAfter(ms[..i], loc) == IndexAfter(EncodeAll(ms, key, loc)[..i], loc) <= 100
  {
    var cs := EncodeAll(ms, key, loc);
    if ms != [] {
      var next := NextIndex(loc, |ms[0]|);
      XorUndoes(ms[0], key, loc);
      XorStaysInStep(ms[1..], key, next);
      forall i | 0 <= i <= |ms| ensures IndexAfter(ms[..i], loc) == IndexAfter(cs[..i], loc) <= 100 {
        if i > 0 {
          assert ms[..i][1..] == ms[1..][..i - 1] && cs[..i][1..] == cs[1..][..i - 1];
        }
      }
    }
  }

  /** Merging two messages before decoding is harmless exactly when the first one did not reset the
      position, or the key happens to repeat there: the frames must keep the boundaries. */
  lemma XorNeedsBoundaries(a: Bytes, b: Bytes, key: Bytes, loc: nat)
    requires key != [] && loc <= 100
    ensures var cipher := Concat(EncodeAll([a, b], key, loc));
            XorBytes(cipher, key, loc) == a + b
            <==> (loc + |a| <= 100
                  || Keystream(key, loc + |a|, |b|) == Keystream(key, 0, |b|))
  {
    var next := NextIndex(loc, |a|);
    var x, y := XorBytes(a, key, loc), XorBytes(b, key, next);
    assert Concat(EncodeAll([a, b], key, loc)) == x + y by {
      assert EncodeAll([a, b], key, loc) == [x] + EncodeAll([b], key, next) == [x, y];
      assert [x, y][1..] == [y] && Concat([y]) == y + [];
    }
    XorBytesConcat(x, y, key, loc);
    XorUndoes(a, key, loc);
    XorShifted(b, key, next, loc + |a|);
    assert (a + b)[|a|..] == b;
  }

  lemma XorBytesConcat(x: Bytes, y: Bytes, key: Bytes, loc: nat)
    requires key != []
    ensures XorBytes(x + y, key, loc) == XorBytes(x, key, loc) + XorBytes(y, key, loc + |x|)
  {
    assert Keystream(key, loc, |x| + |y|) == Keystream(key, loc, |x|) + Keystream(key, loc + |x|, |y|);
  }

  /** Decoding from another position gives the message exactly when the key reads the same there. */
  lemma XorShifted(b: Bytes, key: Bytes, p: nat, q: nat)
    requires key != []
    ensures XorBytes(XorBytes(b, key, p), key, q) == b <==> Keystream(key, q, |b|) == Keystream(key, p, |b|)
  {
    var d := XorBytes(XorBytes(b, key, p), key, q);
    var kp, kq := Keystream(key, p, |b|), Keystream(key, q, |b|);
    forall j | 0 <= j < |b| ensures d[j] == b[j] <==> kq[j] == kp[j] {
      Xor8Cancel(b[j], kp[j], kq[j]);
    }
  }

  // ---------- as an instance of the codec contract ----------

  datatype XorState = XorState(key: Bytes, index: nat)

  /** `XorBytes` on a state; an uninitialised codec has no key and encodes nothing. */
  function XorStep(s: XorState, m: Bytes): (XorState, Option<Bytes>) {
    if s.key == [] then (s, None)
    else (s.(index := NextIndex(s.index, |m|)), Some(XorBytes(m, s.key, s.index)))
  }

  function XorAsCodec(sha: Bytes -> Bytes): Codec<XorState> {
    var start := (key, iv) => Some(XorState(GenKey(sha, key, iv), 0));
    Codec(13, XorState([], 0), start, start, XorStep, XorStep)
  }

  /** The codec over a message: both ends start at the digest of key and IV with position 0, and then run
      the object's `Encode` and `Decode`; before that neither does anything. */
  lemma CodecIs(sha: Bytes -> Bytes, key: Bytes, iv: Bytes, s: XorState, m: Bytes)
    ensures var c := XorAsCodec(sha);
            && c.ivLen == 13 && c.blank.key == []
            && c.initWrite(key, iv) == c.initRead(key, iv) == Some(XorState(sha(key + iv), 0))
            && c.encode(s, m) == c.decode(s, m)
            && (s.key != [] ==> c.encode(s, m) == (XorState(s.key, NextIndex(s.index, |m|)), Some(XorBytes(m, s.key, s.index))))
            && (s.key == [] ==> c.encode(s, m) == (s, None))
  {
  }

  ghost predicate XorInStep(w: XorState, r: XorState) {
    w == r && w.key != [] && w.index <= 100
  }

  lemma XorPaired(sha: Bytes -> Bytes)
    requires forall x :: sha(x) != []
    ensures Paired(XorAsCodec(sha), XorInStep)
  {
    forall w, r, m | XorInStep(w, r) && m != []
      ensures Crosses(XorAsCodec(sha), XorInStep, w, r, m)
    {
      XorUndoes(m, w.key, w.index);
    }
  }
}
