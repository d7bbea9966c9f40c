/** Block-cipher codecs: PKCS5 padding (mix_layer/crypt_layer_utils.go) and the Blowfish block
    loops (mix_layer/blowfish/blowfish.go). The cipher itself is any keyed permutation. */
module BlockCodec {
  import opened Octets
  import opened Codec

  // ---------- padding ----------

  function Pad(src: Bytes, blockSize: nat): Bytes
    requires 1 <= blockSize <= 255
  {
    var padding := blockSize - |src| % blockSize;
    src + seq(padding, _ => padding as byte)
  }

  /** The message, then up to a whole block more of bytes that each say how many they are (section 6.3 of
      RFC 5652). */
  lemma PadIs(src: Bytes, blockSize: nat)
    requires 1 <= blockSize <= 255
    ensures var p := Pad(src, blockSize);
            && src <= p && |src| < |p| <= |src| + blockSize && |p| % blockSize == 0
            && forall i :: |src| <= i < |p| ==> p[i] == |p| - |src|
  {
    UnpadPad(src, blockSize);
  }

  method PKCS5Padding(src: Bytes, blockSize: nat) returns (totalData: array<byte>)
    requires 1 <= blockSize <= 255
    ensures fresh(totalData) && totalData[..] == Pad(src, blockSize)
  {
    var padding := blockSize - |src| % blockSize;
    totalData := new byte[|src| + padding](_ => padding);
    forall i | 0 <= i < |src| { totalData[i] := src[i]; }
  }

  /** `PKCS5UnPadding`; the source indexes the last byte, so an empty buffer has no result. */
  function Unpad(src: Bytes): Option<Bytes>
    requires src != []
  {
    var unpadding := src[|src| - 1];
    if |src| <= unpadding then None else Some(src[..|src| - unpadding])
  }

  /** Padding fills whole blocks, adds between 1 and a block, and is undone by unpadding, except
      that the empty message does not come back (RFC 5652, section 6.3). */
  lemma UnpadPad(m: Bytes, blockSize: nat)
    requires 1 <= blockSize <= 255
    ensures |Pad(m, blockSize)| % blockSize == 0
    ensures |m| < |Pad(m, blockSize)| <= |m| + blockSize
    ensures Unpad(Pad(m, blockSize)) == if m == [] then None else Some(m)
  {
    var q, r := |m| / blockSize, |m| % blockSize;
    var n := |Pad(m, blockSize)|;
    assert n == (q + 1) * blockSize;
    RestIs(q + 1, 0, blockSize);
  }

  /** Quotients are unique: what a multiple of d leaves over is the rest. */
  lemma RestIs(q: nat, r: nat, d: nat)
    requires r < d
    ensures (q * d + r) % d == r
  {
    var n := q * d + r;
    var k := n / d;
    assert n == k * d + n % d;
    MulMono(k, q, d);
    MulMono(q, k, d);
  }

  lemma {:induction false} MulMono(x: nat, y: nat, d: nat)
    ensures x < y ==> x * d + d <= y * d
  {
    if x < y {
      MulMono(x, y - 1, d);
      assert y * d == (y - 1) * d + d;
    }
  }

  // ---------- blocks ----------

  /** A keyed block permutation and its inverse. */
  datatype Cipher = Cipher(size: nat, encrypt: (Bytes, Bytes) -> Bytes, decrypt: (Bytes, Bytes) -> Bytes)

  ghost predicate Undoes(size: nat, f: (Bytes, Bytes) -> Bytes, g: (Bytes, Bytes) -> Bytes) {
    forall k, b: Bytes :: |b| == size ==> |f(k, b)| == size && g(k, f(k, b)) == b
  }

  ghost predicate IsPermutation(c: Cipher) {
    1 <= c.size <= 255 && Undoes(c.size, c.encrypt, c.decrypt) && Undoes(c.size, c.decrypt, c.encrypt)
  }

  /** A function applied block by block. */
  function MapBlocks(size: nat, f: Bytes -> Bytes, s: Bytes): Bytes
    requires size > 0
  {
    if |s| < size then [] else f(s[..size]) + MapBlocks(size, f, s[size..])
  }

  predicate WholeBlocks(n: nat, size: nat) {
    size > 0 && n % size == 0
  }

  /** The block loop of `Encode` and `Decode`, which writes the output in place. */
  method BlockLoop(size: nat, f: Bytes -> Bytes, input: Bytes) returns (output: array<byte>)
    requires WholeBlocks(|input|, size)
    requires forall b: Bytes :: |b| == size ==> |f(b)| == size
    ensures fresh(output) && output[..] == MapBlocks(size, f, input) && output.Length == |input|
  {
    hide MapBlocks;
    output := new byte[|input|](_ => 0);
    var i := 0;
    assert input[0..] == input && output[..0] == [];
    while i < |input|
      invariant 0 <= i <= |input| && WholeBlocks(|input| - i, size)
      invariant output[..i] + MapBlocks(size, f, input[i..]) == MapBlocks(size, f, input)
    {
      WholeBlockLeft(|input| - i, size);
      ghost var before, rest := output[..i], input[i + size..];
      var block := f(input[i..i + size]);
      assert input[i..] == input[i..i + size] + rest;
      MapBlocksStep(size, f, input[i..i + size], rest);
      Assoc(before, block, MapBlocks(size, f, rest));
      CopyInto(output, i, block);
      assert output[..i + size] == before + block;
      i := i + size;
    }
    MapNoBlocks(size, f, input[i..]);
    assert output[..] == output[..i];
  }

  lemma MapNoBlocks(size: nat, f: Bytes -> Bytes, s: Bytes)
    requires size > 0 && s == []
    ensures MapBlocks(size, f, s) == []
  {
  }

  lemma WholeBlockLeft(n: nat, size: nat)
    requires 0 < n && WholeBlocks(n, size)
    ensures size <= n && WholeBlocks(n - size, size)
  {
    var q := n / size;
    assert n == q * size;
    assert q >= 1;
    assert n - size == (q - 1) * size;
    RestIs(q - 1, 0, size);
    MulMono(0, q, size);
  }

  lemma MapBlocksStep(size: nat, f: Bytes -> Bytes, block: Bytes, rest: Bytes)
    requires size > 0 && |block| == size
    ensures MapBlocks(size, f, block + rest) == f(block) + MapBlocks(size, f, rest)
  {
    assert (block + rest)[..size] == block && (block + rest)[size..] == rest;
  }

  /** Block by block, an inverse undoes a permutation, and lengths stay. */
  lemma {:induction false} MapBlocksUndone(size: nat, f: Bytes -> Bytes, g: Bytes -> Bytes, s: Bytes)
    requires WholeBlocks(|s|, size)
    requires forall b: Bytes :: |b| == size ==> |f(b)| == size && g(f(b)) == b
    ensures |MapBlocks(size, f, s)| == |s|
    ensures MapBlocks(size, g, MapBlocks(size, f, s)) == s
  {
    if s != [] {
      WholeBlockLeft(|s|, size);
      var block, rest := s[..size], s[size..];
      assert s == block + rest;
      MapBlocksStep(size, f, block, rest);
      MapBlocksStep(size, g, f(block), MapBlocks(size, f, rest));
      MapBlocksUndone(size, f, g, rest);
    }
  }

  // ---------- the codec functions ----------

  function EncodeMessage(c: Cipher, key: Bytes, m: Bytes): Bytes
    requires 1 <= c.size <= 255
  {
    MapBlocks(c.size, b => c.encrypt(key, b), Pad(m, c.size))
  }

  function DecodeMessage(c: Cipher, key: Bytes, x: Bytes): Option<Bytes>
    requires 1 <= c.size <= 255
  {
    if |x| % c.size != 0 then None
    else
      var out := MapBlocks(c.size, b => c.decrypt(key, b), x);
      if out == [] then None else Unpad(out)
  }

  /** Encoding then decoding: the message, for every non-empty message and every permutation. */
  lemma DecodeUndoesEncode(c: Cipher, key: Bytes, m: Bytes)
    requires IsPermutation(c) && m != []
    ensures DecodeMessage(c, key, EncodeMessage(c, key, m)) == Some(m)
    ensures |m| < |EncodeMessage(c, key, m)| <= |m| + c.size
  {
    UnpadPad(m, c.size);
    MapBlocksUndone(c.size, b => c.encrypt(key, b), b => c.decrypt(key, b), Pad(m, c.size));
  }

  /** What unpadding should look for and does not: the last byte names a length within a block, and
      that many bytes at the end repeat it (RFC 5652, section 6.3). */
  predicate WellPadded(y: Bytes, blockSize: nat) {
    && y != []
    && 1 <= y[|y| - 1] <= blockSize && y[|y| - 1] as int <= |y|
    && forall i :: |y| - y[|y| - 1] as int <= i < |y| ==> y[i] == y[|y| - 1]
  }

  /** Whole blocks that unpad are the padding of the result exactly when they are well padded. */
  lemma PadOfUnpadIff(y: Bytes, blockSize: nat)
    requires 1 <= blockSize <= 255 && WholeBlocks(|y|, blockSize)
    requires y != [] && Unpad(y).Some?
    ensures Pad(Unpad(y).value, blockSize) == y <==> WellPadded(y, blockSize)
  {
    var m := Unpad(y).value;
    var p: int, n := y[|y| - 1], |y|;
    assert m == y[..n - p];
    if WellPadded(y, blockSize) {
      LengthWithoutPad(n, p, blockSize);
      assert y == m + y[n - p..];
    } else if Pad(m, blockSize) == y {
      assert false;
    }
  }

  lemma LengthWithoutPad(n: nat, p: nat, size: nat)
    requires WholeBlocks(n, size) && 1 <= p <= size && p <= n
    ensures size - (n - p) % size == p
  {
    var q := n / size;
    assert n == q * size;
    assert n - p == (q - 1) * size + (size - p);
    if p < size {
      RestIs(q - 1, size - p, size);
    } else {
      RestIs(q - 1, 0, size);
    }
  }

  function DecryptBlocks(c: Cipher, key: Bytes, x: Bytes): Bytes
    requires 1 <= c.size <= 255
  {
    MapBlocks(c.size, b => c.decrypt(key, b), x)
  }

  /** A ciphertext decodes exactly if it is whole blocks and not empty and what it decrypts to is longer
      than its last byte says; then to all but that many bytes. */
  lemma DecodesIff(c: Cipher, key: Bytes, x: Bytes)
    requires IsPermutation(c)
    ensures var y := DecryptBlocks(c, key, x);
            && (DecodeMessage(c, key, x).Some? <==> |x| % c.size == 0 && x != [] && |y| == |x| && y[|x| - 1] as int < |x|)
            && (DecodeMessage(c, key, x).Some? ==> DecodeMessage(c, key, x) == Some(y[..|x| - y[|x| - 1] as int]))
  {
    if |x| % c.size == 0 {
      MapBlocksUndone(c.size, b => c.decrypt(key, b), b => c.encrypt(key, b), x);
    }
  }

  /** Decoding then encoding: a ciphertext that decodes is the encoding of what it decodes to exactly
      when what it decrypts to is well padded; unpadding looks at the last byte alone. */
  lemma EncodeUndoesDecode(c: Cipher, key: Bytes, x: Bytes)
    requires IsPermutation(c) && DecodeMessage(c, key, x).Some?
    ensures EncodeMessage(c, key, DecodeMessage(c, key, x).value) == x <==> WellPadded(DecryptBlocks(c, key, x), c.size)
  {
    hide WellPadded;
    var enc, dec := b => c.encrypt(key, b), b => c.decrypt(key, b);
    var m, y := DecodeMessage(c, key, x).value, DecryptBlocks(c, key, x);
    MapBlocksUndone(c.size, dec, enc, x);
    UnpadPad(m, c.size);
    MapBlocksUndone(c.size, enc, dec, Pad(m, c.size));
    PadOfUnpadIff(y, c.size);
  }

  function Zeros(n: nat): Bytes {
    seq(n, _ => 0)
  }

  /** Whatever the permutation: the encryption of a block of zeros decodes, to all of that block, and
      is not the encoding of it; nor, for blocks of at least 3 bytes, is that of a block ending in 0, 2,
      which decodes to all but those two bytes. */
  lemma BadPaddingAccepted(c: Cipher, key: Bytes)
    requires IsPermutation(c)
    ensures var zeros := Zeros(c.size); var x := c.encrypt(key, zeros);
            DecodeMessage(c, key, x) == Some(zeros) && EncodeMessage(c, key, zeros) != x
    ensures c.size >= 3 ==>
              var m := Zeros(c.size - 2); var x := c.encrypt(key, m + [0, 2]);
              DecodeMessage(c, key, x) == Some(m) && EncodeMessage(c, key, m) != x
  {
    var zeros := Zeros(c.size);
    assert zeros[..|zeros| - 0] == zeros;
    BadBlock(c, key, zeros);
    if c.size >= 3 {
      var m := Zeros(c.size - 2);
      var y := m + [0, 2];
      assert Unpad(y) == Some(m);
      assert y[|y| - 2] == 0 && y[|y| - 1] == 2;
      BadBlock(c, key, y);
    }
  }

  lemma BadBlock(c: Cipher, key: Bytes, y: Bytes)
    requires IsPermutation(c) && |y| == c.size && Unpad(y).Some? && !WellPadded(y, c.size)
    ensures var x := c.encrypt(key, y); DecodeMessage(c, key, x) == Unpad(y) && EncodeMessage(c, key, Unpad(y).value) != x
  {
    OneBlock(c, key, y);
    EncodeUndoesDecode(c, key, c.encrypt(key, y));
  }

  lemma OneBlock(c: Cipher, key: Bytes, y: Bytes)
    requires IsPermutation(c) && |y| == c.size
    ensures |c.encrypt(key, y)| == c.size && DecryptBlocks(c, key, c.encrypt(key, y)) == y
    ensures DecodeMessage(c, key, c.encrypt(key, y)) == Unpad(y)
  {
    var x := c.encrypt(key, y);
    var dec := b => c.decrypt(key, b);
    assert x[..c.size] == x && x[c.size..] == [];
    MapNoBlocks(c.size, dec, x[c.size..]);
    RestIs(1, 0, c.size);
  }

  // ---------- Blowfish ----------

  /** `blowfish.NewCipher` accepts keys of 1 to 56 bytes. */
  function NewCipher(key: Bytes): Option<Bytes> {
    if 1 <= |key| <= 56 then Some(key) else None
  }

  class BlowFish {
    const cipher: Cipher
    var enc: Option<Bytes>
    var dec: Option<Bytes>

    constructor (cipher: Cipher)
      ensures this.cipher == cipher && enc == None && dec == None
    {
      this.cipher := cipher;
      enc, dec := None, None;
    }

    method InitWrite(key: Bytes, iv: Bytes) returns (ok: bool)
      modifies this`enc
      ensures ok <==> 1 <= |key + iv| <= 56
      ensures enc == if ok then Some(key + iv) else old(enc)
    {
      var k := NewCipher(key + iv);
      ok := k.Some?;
      if ok { enc := k; }
    }

    method InitRead(key: Bytes, iv: Bytes) returns (ok: bool)
      modifies this`dec
      ensures ok <==> 1 <= |key + iv| <= 56
      ensures dec == if ok then Some(key + iv) else old(dec)
    {
      var k := NewCipher(key + iv);
      ok := k.Some?;
      if ok { dec := k; }
    }

    method Encode(input: Bytes) returns (output: array<byte>)
      requires IsPermutation(cipher) && enc.Some?
      ensures fresh(output) && output[..] == EncodeMessage(cipher, enc.value, input)
    {
      var padded := PKCS5Padding(input, cipher.size);
      UnpadPad(input, cipher.size);
      var key := enc.value;
      output := BlockLoop(cipher.size, b => cipher.encrypt(key, b), padded[..]);
      assert output[..] == EncodeMessage(cipher, enc.value, input);
    }

    method Decode(input: Bytes) returns (output: Option<Bytes>)
      requires IsPermutation(cipher) && dec.Some? && input != []
      ensures output == DecodeMessage(cipher, dec.value, input)
    {
      if |input| % cipher.size != 0 {
        return None;
      }
      var key := dec.value;
      var out := BlockLoop(cipher.size, b => cipher.decrypt(key, b), input);
      output := Unpad(out[..]);
    }
  }

  /** The codec's state is the cipher key of its direction; empty before initialisation. */
  function BlowFishCodec(c: Cipher): Codec<Bytes>
    requires 1 <= c.size <= 255
  {
    Codec(8, [],
          (key: Bytes, iv: Bytes) => NewCipher(key + iv),
          (key: Bytes, iv: Bytes) => NewCipher(key + iv),
          (k, m) => (k, if k == [] then None else Some(EncodeMessage(c, k, m))),
          (k, x) => (k, if k == [] then None else DecodeMessage(c, k, x)))
  }

  /** The codec over a message: both ends start at the cipher key, which is key and IV joined if that is 1
      to 56 bytes long, and then run the object's `Encode` and `Decode`. */
  lemma CodecIs(c: Cipher, key: Bytes, iv: Bytes, k: Bytes, m: Bytes)
    requires 1 <= c.size <= 255
    ensures var codec := BlowFishCodec(c);
            && codec.ivLen == 8 && codec.blank == []
            && codec.initWrite(key, iv) == codec.initRead(key, iv) == (if 1 <= |key| + |iv| <= 56 then Some(key + iv) else None)
            && (k != [] ==> codec.encode(k, m) == (k, Some(EncodeMessage(c, k, m))) && codec.decode(k, m) == (k, DecodeMessage(c, k, m)))
  {
  }

  /** The block at each multiple of the size is the block of the input there, transformed. */
  lemma {:induction false} BlockAt(size: nat, f: Bytes -> Bytes, s: Bytes, at: nat)
    requires WholeBlocks(|s|, size) && WholeBlocks(at, size) && at + size <= |s|
    requires forall b: Bytes :: |b| == size ==> |f(b)| == size
    ensures |MapBlocks(size, f, s)| == |s| && MapBlocks(size, f, s)[at..at + size] == f(s[at..at + size])
    decreases at
  {
    hide MapBlocks;
    var block, rest := s[..size], s[size..];
    assert s == block + rest;
    WholeBlockLeft(|s|, size);
    MapBlocksStep(size, f, block, rest);
    MapBlocksLength(size, f, rest);
    var out := MapBlocks(size, f, rest);
    if at > 0 {
      WholeBlockLeft(at, size);
      BlockAt(size, f, rest, at - size);
      BehindBlock(block, rest, at, size);
      BehindBlock(f(block), out, at, size);
    } else {
      assert s[0..0 + size] == block && (f(block) + out)[0..0 + size] == f(block);
    }
  }

  lemma BehindBlock(block: Bytes, rest: Bytes, at: nat, size: nat)
    requires |block| == size <= at && at <= |rest|
    ensures (block + rest)[at..at + size] == rest[at - size..at - size + size]
  {
  }

  lemma {:induction false} MapBlocksLength(size: nat, f: Bytes -> Bytes, s: Bytes)
    requires WholeBlocks(|s|, size)
    requires forall b: Bytes :: |b| == size ==> |f(b)| == size
    ensures |MapBlocks(size, f, s)| == |s|
  {
    if s != [] {
      WholeBlockLeft(|s|, size);
      assert s == s[..size] + s[size..];
      MapBlocksStep(size, f, s[..size], s[size..]);
      MapBlocksLength(size, f, s[size..]);
    }
  }

  /** What is encrypted is the padded message, block by block under the codec's key. */
  lemma CiphertextIs(c: Cipher, key: Bytes, m: Bytes, at: nat)
    requires IsPermutation(c) && WholeBlocks(at, c.size) && at + c.size <= |Pad(m, c.size)|
    ensures var x, p := EncodeMessage(c, key, m), Pad(m, c.size);
            |x| == |p| && x[at..at + c.size] == c.encrypt(key, p[at..at + c.size])
  {
    UnpadPad(m, c.size);
    BlockAt(c.size, b => c.encrypt(key, b), Pad(m, c.size), at);
  }

  ghost predicate SameKey(w: Bytes, r: Bytes) {
    w == r && w != []
  }

  lemma BlowFishPaired(c: Cipher)
    requires IsPermutation(c) && c.size <= MAX_GROWTH
    ensures Paired(BlowFishCodec(c), SameKey)
  {
    var codec := BlowFishCodec(c);
    forall w, r, m | SameKey(w, r) && m != []
      ensures Crosses(codec, SameKey, w, r, m)
    {
      DecodeUndoesEncode(c, w, m);
    }
  }
}
