/** The `EnDec` interface (mix_layer/endec.go) as a record of functions over an explicit state,
    and what it means for an encoder and a decoder to stay paired. */
module Codec {
  import opened Octets

  datatype Codec<!S> = Codec(
    ivLen: nat,
    blank: S,
    initWrite: (Bytes, Bytes) -> Option<S>,
    initRead: (Bytes, Bytes) -> Option<S>,
    encode: (S, Bytes) -> (S, Option<Bytes>),
    decode: (S, Bytes) -> (S, Option<Bytes>)
  )

  const KEY_LENGTH: nat := 20
  const MAX_IV: nat := 24
  const MAX_GROWTH: nat := 16

  /** One message crosses: it encodes, grows by at most MAX_GROWTH, decodes to itself, and the
      two states are paired again. */
  ghost predicate Crosses<S>(c: Codec<S>, paired: (S, S) -> bool, w: S, r: S, m: Bytes) {
    var (w', x) := c.encode(w, m);
    && x.Some? && 1 <= |x.value| <= |m| + MAX_GROWTH
    && var (r', y) := c.decode(r, x.value);
    && y == Some(m) && paired(w', r')
  }

  ghost predicate Starts<S>(c: Codec<S>, paired: (S, S) -> bool, key: Bytes, iv: Bytes) {
    && c.initWrite(key, iv).Some? && c.initRead(key, iv).Some?
    && paired(c.initWrite(key, iv).value, c.initRead(key, iv).value)
  }

  /** The contract every codec of the repository is meant to meet. */
  ghost predicate Paired<S(!new)>(c: Codec<S>, paired: (S, S) -> bool) {
    && c.ivLen <= MAX_IV
    && (forall key, iv :: |key| == KEY_LENGTH && |iv| == c.ivLen ==> Starts(c, paired, key, iv))
    && (forall w, r, m :: paired(w, r) && m != [] ==> Crosses(c, paired, w, r, m))
  }

  // ---------- the "none" codec (mix_layer/none/none.go) ----------

  function NoneCodec(): Codec<()> {
    Codec(19, (), (k, i) => Some(()), (k, i) => Some(()), (s, m) => (s, Some(m)), (s, m) => (s, Some(m)))
  }

  /** It carries 19 bytes of IV and changes nothing. */
  lemma NoneIs(key: Bytes, iv: Bytes, m: Bytes)
    ensures var c := NoneCodec();
            c.ivLen == 19 && c.initWrite(key, iv) == c.initRead(key, iv) == Some(()) && c.encode((), m) == c.decode((), m) == ((), Some(m))
  {
  }

  ghost predicate NoneInStep(w: (), r: ()) {
    true
  }

  lemma NonePaired()
    ensures Paired(NoneCodec(), NoneInStep)
  {
    forall w, r, m | NoneInStep(w, r) && m != []
      ensures Crosses(NoneCodec(), NoneInStep, w, r, m)
    {
    }
  }
}
