/** Bytes, big-endian words, and the few sequence facts every layer of the tunnel shares. */
module Octets {

  datatype Option<+T> = None | Some(value: T)

  type byte = x: int | 0 <= x < 256
  type Bytes = seq<byte>

  /** What a connection reports instead of data. `Timeout` is a `net.Error`; `Eof` and
      `Protocol` are not, which is what the handshake tests. `Panicked` marks a run-time panic. */
  datatype NetError = Timeout | Eof | Protocol | Panicked

  // ---------- 32-bit big-endian words ----------

  /** `binary.BigEndian.PutUint32(out, uint32(n))`, truncation included. */
  function PutU32(n: nat): (b: Bytes)
    ensures |b| == 4
  {
    [n / 0x100_0000 % 256, n / 0x1_0000 % 256, n / 0x100 % 256, n % 256]
  }

  function GetU32(b: Bytes): (n: nat)
    requires |b| >= 4
    ensures n < 0x1_0000_0000
  {
    var b0: int, b1: int, b2: int, b3: int := b[0], b[1], b[2], b[3];
    b0 * 0x100_0000 + b1 * 0x1_0000 + b2 * 0x100 + b3
  }

  lemma GetPutU32(n: nat)
    ensures GetU32(PutU32(n)) == n % 0x1_0000_0000
  {
    var q0 := n / 0x100;
    var q1 := q0 / 0x100;
    var q2 := q1 / 0x100;
    var q3 := q2 / 0x100;
    assert q1 == n / 0x1_0000 && q2 == n / 0x100_0000 && q3 == n / 0x1_0000_0000;
    assert GetU32(PutU32(n)) == n - q3 * 0x1_0000_0000;
  }

  lemma PutGetU32(b: Bytes)
    requires |b| == 4
    ensures PutU32(GetU32(b)) == b
  {
    var n := GetU32(b);
    var b0: int, b1: int, b2: int, b3: int := b[0], b[1], b[2], b[3];
    assert n / 0x100 == b0 * 0x1_0000 + b1 * 0x100 + b2;
    assert n / 0x1_0000 == b0 * 0x100 + b1;
    assert n / 0x100_0000 == b0;
  }

  /** The number that bytes spell in network order, the first byte the highest. */
  function BigEndian(b: Bytes): nat {
    if b == [] then 0 else 256 * BigEndian(b[..|b| - 1]) + b[|b| - 1]
  }

  /** Words are in network order. */
  lemma GetU32IsBigEndian(b: Bytes)
    requires |b| >= 4
    ensures GetU32(b) == BigEndian(b[..4])
  {
    var w := b[..4];
    assert w[..3][..2] == w[..2] && w[..2][..1] == w[..1] && w[..1][..0] == [];
    assert BigEndian(w[..1]) == w[0];
    assert BigEndian(w[..2]) == 256 * BigEndian(w[..1]) + w[1];
    assert BigEndian(w[..3]) == 256 * BigEndian(w[..2]) + w[2];
  }

  // ---------- buffers ----------

  /** The bytes, if there are any. */
  function OrEmpty(x: Option<Bytes>): Bytes {
    match x case None => [] case Some(b) => b
  }

  lemma SomeIsItsValue(x: Option<Bytes>)
    ensures x.Some? ==> OrEmpty(x) == x.value
  {
  }

  /** Go's `copy(out[at:], data)` when the data fits. */
  method CopyInto(out: array<byte>, at: nat, data: Bytes)
    requires at + |data| <= out.Length
    modifies out
    ensures out[..at] == old(out[..at]) && out[at..at + |data|] == data && out[at + |data|..] == old(out[at + |data|..])
  {
    forall i | 0 <= i < |data| { out[at + i] := data[i]; }
  }

  // ---------- concatenation of messages ----------

  function Concat(ms: seq<Bytes>): Bytes {
    if ms == [] then [] else ms[0] + Concat(ms[1..])
  }

  lemma {:induction false} ConcatAppend(a: seq<Bytes>, b: seq<Bytes>)
    ensures Concat(a + b) == Concat(a) + Concat(b)
  {
    if a == [] {
      assert a + b == b;
    } else {
      ConcatAppend(a[1..], b);
      assert (a + b)[1..] == a[1..] + b;
      Assoc(a[0], Concat(a[1..]), Concat(b));
    }
  }

  lemma Assoc<T>(x: seq<T>, y: seq<T>, z: seq<T>)
    ensures x + (y + z) == x + y + z
  {
  }

  lemma ConcatTake(ms: seq<Bytes>, j: nat)
    requires j <= |ms|
    ensures Concat(ms[..j]) <= Concat(ms)
  {
    ConcatAppend(ms[..j], ms[j..]);
    assert ms == ms[..j] + ms[j..];
  }

  /** A prefix of `x + y` lies inside `x`, or is `x` followed by a prefix of `y`. */
  lemma PrefixSplit(p: Bytes, x: Bytes, y: Bytes)
    requires p <= x + y
    ensures |p| <= |x| ==> p == x[..|p|]
    ensures |x| <= |p| ==> p == x + p[|x|..] && p[|x|..] <= y
  {
    assert p == (x + y)[..|p|];
    if |x| <= |p| {
      assert p[|x|..] == y[..|p| - |x|];
      assert p[..|x|] == x;
    } else {
      assert (x + y)[..|p|] == x[..|p|];
    }
  }

  /** Taking from the front of a concatenation. */
  lemma TakeFront(x: Bytes, y: Bytes, n: nat)
    requires n <= |x|
    ensures (x + y)[..n] == x[..n] && (x + y)[n..] == x[n..] + y
  {
  }

  function Min(a: int, b: int): (m: int)
    ensures m <= a && m <= b && (m == a || m == b)
  {
    if a <= b then a else b
  }
}
