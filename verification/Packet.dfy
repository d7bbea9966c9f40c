/** Relay packets (wcf/relay/relay_utils.go): length(4) 0x2 body 0x3, the body being the protobuf
    message DataPacket { bytes data = 1; uint32 crc = 2; uint64 ts = 3 } (wcf/relay/msg/msg.proto). */
module Packet {
  import opened Octets

  const MAX_BYTE_PER_PACKET: nat := 32 * 1024
  const MAX_BYTE_AUTH_PACKET: nat := 256 + 128

  const TWO_32: nat := 0x1_0000_0000
  const TWO_64: nat := 0x1_0000_0000_0000_0000

  /** `crc32.Checksum(data, crc32.IEEETable)` as an arbitrary function, reduced to 32 bits. */
  type Checksum = Bytes -> nat

  function Crc(crc: Checksum, data: Bytes): nat {
    crc(data) % TWO_32
  }

  datatype DataPacket = DataPacket(data: Bytes, crc: nat, ts: nat)

  // ---------- base-128 varints ----------

  function Varint(n: nat): (v: Bytes)
    ensures |v| >= 1
  {
    if n < 128 then [n] else [n % 128 + 128] + Varint(n / 128)
  }

  /** A varint at the head of `b`, at most `room` bytes long, with the number of bytes it takes.
      The tenth byte may only be 0 or 1. */
  function ReadVarint(b: Bytes, room: nat): (r: Option<(nat, nat)>)
    ensures r.Some? ==> 1 <= r.value.1 <= |b|
    decreases room
  {
    if b == [] || room == 0 || (room == 1 && b[0] >= 2) then None
    else if b[0] < 128 then Some((b[0], 1))
    else
      match ReadVarint(b[1..], room - 1)
      case None => None
      case Some((hi, k)) => Some((b[0] - 128 + 128 * hi, k + 1))
  }

  /** The values that fit in `room` bytes: 128 per byte, 2 for the tenth. */
  function Capacity(room: nat): nat {
    if room == 0 then 0 else if room == 1 then 2 else 128 * Capacity(room - 1)
  }

  lemma {:induction false} ReadBackVarint(n: nat, room: nat, rest: Bytes)
    requires n < Capacity(room)
    ensures ReadVarint(Varint(n) + rest, room) == Some((n, |Varint(n)|))
    decreases room
  {
    var b := Varint(n) + rest;
    if n < 128 {
      assert b[0] == n;
    } else {
      ReadBackVarint(n / 128, room - 1, rest);
      assert b[1..] == Varint(n / 128) + rest;
      assert b[0] == n % 128 + 128;
    }
  }

  lemma SixtyFourBits()
    ensures Capacity(10) == TWO_64
  {
    assert Capacity(5) == 128 * 128 * 128 * 128 * 2;
  }

  /** Every value below 2^64 reads back, whatever follows it. */
  lemma ReadBack(n: nat, rest: Bytes)
    requires n < TWO_64
    ensures ReadVarint(Varint(n) + rest, 10) == Some((n, |Varint(n)|))
  {
    SixtyFourBits();
    ReadBackVarint(n, 10, rest);
  }

  /** The number that base-128 digits spell, the first the lowest. */
  function Digits128(v: Bytes): nat {
    if v == [] then 0 else v[0] % 128 + 128 * Digits128(v[1..])
  }

  /** A varint is the number's base-128 digits, the high bit set on all bytes but the last. */
  lemma {:induction false} VarintIs(n: nat)
    ensures Digits128(Varint(n)) == n
    ensures forall i :: 0 <= i < |Varint(n)| ==> (Varint(n)[i] >= 128 <==> i < |Varint(n)| - 1)
    ensures |Varint(n)| > 1 ==> Varint(n)[|Varint(n)| - 1] > 0
  {
    if n >= 128 {
      VarintIs(n / 128);
      assert Varint(n)[1..] == Varint(n / 128);
    }
  }

  function VarintLength(n: nat): nat {
    if n < 128 then 1 else 1 + VarintLength(n / 128)
  }

  lemma {:induction false} VarintLengthIs(n: nat)
    ensures |Varint(n)| == VarintLength(n)
  {
    if n >= 128 { VarintLengthIs(n / 128); }
  }

  lemma {:induction false} VarintLengthBound(n: nat, room: nat)
    requires n < Capacity(room)
    ensures VarintLength(n) <= room
  {
    if n >= 128 { VarintLengthBound(n / 128, room - 1); }
  }

  // ---------- the DataPacket message ----------

  /** `proto.Marshal`: the three fields in order. */
  function Marshal(p: DataPacket): Bytes {
    [0x0A] + Varint(|p.data|) + p.data + [0x10] + Varint(p.crc) + [0x18] + Varint(p.ts)
  }

  /** `proto.Unmarshal`: fields in any order, the last one wins, absent ones keep their default,
      unknown fields and known numbers of another wire type are skipped. */
  function Unmarshal(b: Bytes, acc: DataPacket): Option<DataPacket>
    decreases |b|
  {
    if b == [] then Some(acc)
    else
      match ReadVarint(b, 10)
      case None => None
      case Some((tag, k)) =>
        if tag / 8 == 0 then None
        else
          match Field(b[k..], tag % 8)
          case None => None
          case Some((v, raw, used)) =>
            Unmarshal(b[k + used..], Store(acc, tag, v, raw))
  }

  function Store(acc: DataPacket, tag: nat, v: nat, raw: Bytes): DataPacket {
    if tag == 0x0A then acc.(data := raw)
    else if tag == 0x10 then acc.(crc := v % TWO_32)
    else if tag == 0x18 then acc.(ts := v)
    else acc
  }

  /** One field's value by wire type: its number, its raw bytes, and the bytes it takes. */
  function Field(b: Bytes, wire: nat): (r: Option<(nat, Bytes, nat)>)
    ensures r.Some? ==> r.value.2 <= |b|
  {
    if wire == 0 then
      match ReadVarint(b, 10)
      case None => None
      case Some((v, k)) => Some((v, [], k))
    else if wire == 2 then
      match ReadVarint(b, 10)
      case None => None
      case Some((len, k)) => if len > |b| - k then None else Some((0, b[k..k + len], k + len))
    else if wire == 1 then
      if |b| < 8 then None else Some((0, [], 8))
    else if wire == 5 then
      if |b| < 4 then None else Some((0, [], 4))
    else None
  }

  const EMPTY: DataPacket := DataPacket([], 0, 0)

  /** One field at the head of a message: a one-byte tag, then its value. */
  lemma FieldStep(tag: nat, value: Bytes, rest: Bytes, acc: DataPacket, v: nat, raw: Bytes)
    requires tag < 128 && tag / 8 != 0
    requires Field(value + rest, tag % 8) == Some((v, raw, |value|))
    ensures Unmarshal([tag] + (value + rest), acc) == Unmarshal(rest, Store(acc, tag, v, raw))
  {
    hide Unmarshal, Field, Store, ReadVarint;
    var b := [tag] + (value + rest);
    BehindTag(tag, value, rest);
    OneByteVarint(b, 10);
    OneField(b, acc, tag, 1, v, raw, |value|);
  }

  lemma BehindTag(tag: byte, value: Bytes, rest: Bytes)
    ensures var b := [tag] + (value + rest); b[0] == tag && b[1..] == value + rest && b[1 + |value|..] == rest
  {
  }

  lemma OneByteVarint(b: Bytes, room: nat)
    requires b != [] && b[0] < 128 && room > 1
    ensures ReadVarint(b, room) == Some((b[0], 1))
  {
  }

  lemma OneField(b: Bytes, acc: DataPacket, tag: nat, k: nat, v: nat, raw: Bytes, used: nat)
    requires ReadVarint(b, 10) == Some((tag, k)) && tag / 8 != 0
    requires Field(b[k..], tag % 8) == Some((v, raw, used))
    ensures Unmarshal(b, acc) == Unmarshal(b[k + used..], Store(acc, tag, v, raw))
  {
    hide Field, ReadVarint, Store;
  }

  lemma NumberField(n: nat, rest: Bytes)
    requires n < TWO_64
    ensures Field(Varint(n) + rest, 0) == Some((n, [], |Varint(n)|))
  {
    ReadBack(n, rest);
  }

  lemma BytesField(data: Bytes, rest: Bytes)
    requires |data| < TWO_64
    ensures Field(Varint(|data|) + data + rest, 2) == Some((0, data, |Varint(|data|) + data|))
  {
    var len := Varint(|data|);
    var b := len + data + rest;
    ReadBack(|data|, data + rest);
    Assoc(len, data, rest);
    assert b[|len|..|len| + |data|] == data;
  }

  /** `Unmarshal` inverts `Marshal` on every packet of the message's integer widths. */
  lemma UnmarshalMarshal(p: DataPacket)
    requires |p.data| < TWO_64 && p.crc < TWO_32 && p.ts < TWO_64
    ensures Unmarshal(Marshal(p), EMPTY) == Some(p)
  {
    hide Unmarshal, Field, Varint, ReadVarint;
    var v1, v2, v3 := Varint(|p.data|) + p.data, Varint(p.crc), Varint(p.ts);
    var r3 := v3 + [];
    var r2 := v2 + ([0x18] + r3);
    var r1 := v1 + ([0x10] + r2);
    assert Marshal(p) == [0x0A] + r1;
    BytesField(p.data, [0x10] + r2);
    FieldStep(0x0A, v1, [0x10] + r2, EMPTY, 0, p.data);
    NumberField(p.crc, [0x18] + r3);
    FieldStep(0x10, v2, [0x18] + r3, DataPacket(p.data, 0, 0), p.crc, []);
    NumberField(p.ts, []);
    FieldStep(0x18, v3, [], DataPacket(p.data, p.crc, 0), p.ts, []);
    NothingToParse(p);
  }

  lemma NothingToParse(p: DataPacket)
    ensures Unmarshal([], p) == Some(p)
  {
  }

  /** The fields of msg.proto: number 1 length-delimited, numbers 2 and 3 varints, each behind the byte
      that says its number and wire type. */
  lemma MarshalIs(p: DataPacket)
    ensures Marshal(p) == [1 * 8 + 2] + Varint(|p.data|) + p.data + [2 * 8 + 0] + Varint(p.crc) + [3 * 8 + 0] + Varint(p.ts)
  {
  }

  lemma KnownPacket()
    ensures Marshal(DataPacket([1, 2], 300, 5)) == [0x0A, 2, 1, 2, 0x10, 0xAC, 0x02, 0x18, 5]
  {
    assert Varint(300) == [300 % 128 + 128] + Varint(2);
  }

  /** A field of another number or wire type, whatever it holds, is skipped: a varint, 8 bytes, 4 bytes,
      or as many bytes as its length says. */
  lemma SkipsUnknown(tag: nat, value: Bytes, rest: Bytes, acc: DataPacket)
    requires tag < 128 && tag / 8 != 0 && tag != 0x0A && tag != 0x10 && tag != 0x18
    requires (tag % 8 == 0 && exists n: nat :: n < TWO_64 && value == Varint(n))
          || (tag % 8 == 1 && |value| == 8)
          || (tag % 8 == 2 && exists data: Bytes :: |data| < TWO_64 && value == Varint(|data|) + data)
          || (tag % 8 == 5 && |value| == 4)
    ensures Unmarshal([tag] + (value + rest), acc) == Unmarshal(rest, acc)
  {
    hide Unmarshal, Varint, ReadVarint;
    if tag % 8 == 0 {
      var n: nat :| n < TWO_64 && value == Varint(n);
      NumberField(n, rest);
      FieldStep(tag, value, rest, acc, n, []);
    } else if tag % 8 == 2 {
      var data: Bytes :| |data| < TWO_64 && value == Varint(|data|) + data;
      BytesField(data, rest);
      FieldStep(tag, value, rest, acc, 0, data);
    } else {
      FieldStep(tag, value, rest, acc, 0, []);
    }
  }

  lemma DataFieldStep(data: Bytes, rest: Bytes, acc: DataPacket)
    requires |data| < TWO_64
    ensures Unmarshal([0x0A] + ((Varint(|data|) + data) + rest), acc) == Unmarshal(rest, acc.(data := data))
  {
    hide Unmarshal, Varint, ReadVarint, Field;
    BytesField(data, rest);
    FieldStep(0x0A, Varint(|data|) + data, rest, acc, 0, data);
  }

  /** A field that comes twice counts the second time. */
  lemma LastFieldWins(data: Bytes, data': Bytes, rest: Bytes, acc: DataPacket)
    requires |data| < TWO_64 && |data'| < TWO_64
    ensures var v, v' := Varint(|data|) + data, Varint(|data'|) + data';
            Unmarshal([0x0A] + (v + ([0x0A] + (v' + rest))), acc) == Unmarshal(rest, acc.(data := data'))
  {
    hide Unmarshal, Varint, ReadVarint, Field;
    DataFieldStep(data, [0x0A] + ((Varint(|data'|) + data') + rest), acc);
    DataFieldStep(data', rest, acc.(data := data));
  }

  // ---------- packets ----------

  /** The outcomes of the ready check: 0 is NeedMore; `Crash` is the slice index that panics when
      the length field says 0. */
  datatype Check = NeedMore | Bad(code: int) | Ready(total: nat) | Crash

  function CheckReadyWithLength(data: Bytes, maxBytes: nat): Check {
    if |data| <= 6 then NeedMore
    else
      var total := GetU32(data);
      if total > maxBytes then Bad(-1)
      else if data[4] != 0x2 then Bad(-3)
      else if |data| < total then NeedMore
      else if total == 0 then Crash
      else if data[total - 1] != 0x3 then Bad(-2)
      else Ready(total)
  }

  /** A stream whose length field says 0 behind which the start delimiter is in place. */
  predicate ZeroLength(w: Bytes) {
    |w| > 6 && GetU32(w) == 0 && w[4] == 0x2
  }

  /** The check panics exactly on such streams, whatever the limit; for instance on this one. */
  lemma PanicsIffZeroLength(w: Bytes, max: nat)
    ensures CheckReadyWithLength(w, max) == Crash <==> ZeroLength(w)
    ensures ZeroLength([0, 0, 0, 0, 2, 0, 0])
  {
    PutGetU32([0, 0, 0, 0]);
  }

  /** A buffer that waits for the rest of a packet is shorter than the largest packet, so that what it
      can wait for runs out. */
  lemma WaitingIsShort(w: Bytes, max: nat)
    requires max > 6 && CheckReadyWithLength(w, max) == NeedMore
    ensures |w| < max
  {
  }

  function CheckReady(data: Bytes): Check {
    CheckReadyWithLength(data, MAX_BYTE_PER_PACKET)
  }

  /** `GetPacketDataCheckTs`; `delims` 0 skips the age test, which wraps like uint64. */
  function GetDataCheckTs(crc: Checksum, data: Bytes, delims: nat, now: nat): Option<Bytes> {
    match CheckReady(data) {
      case Ready(total) =>
        if total < 6 then None
        else
          match Unmarshal(data[5..total - 1], EMPTY) {
            case None => None
            case Some(pb) =>
              if Crc(crc, pb.data) != pb.crc then None
              else if delims != 0 && (pb.ts + delims) % TWO_64 < now then None
              else Some(pb.data)
          }
      case _ => None
    }
  }

  function GetData(crc: Checksum, data: Bytes): Option<Bytes> {
    GetDataCheckTs(crc, data, 0, 0)
  }

  function Body(crc: Checksum, data: Bytes, ts: nat): Bytes {
    Marshal(DataPacket(data, Crc(crc, data), ts))
  }

  /** The bytes of one packet. */
  function Build(crc: Checksum, data: Bytes, ts: nat): (p: Bytes)
    ensures |p| == |Body(crc, data, ts)| + 6
  {
    var raw := Body(crc, data, ts);
    PutU32(|raw| + 6) + [0x2] + raw + [0x3]
  }

  /** `BuildDataPacket` fills one buffer in place. */
  method BuildDataPacket(crc: Checksum, data: Bytes, ts: nat) returns (buffer: array<byte>)
    ensures fresh(buffer) && buffer[..] == Build(crc, data, ts)
  {
    hide Body, PutU32;
    var raw := Body(crc, data, ts);
    buffer := new byte[4 + 1 + 1 + |raw|](_ => 0);
    var len := PutU32(buffer.Length);
    forall i | 0 <= i < 4 { buffer[i] := len[i]; }
    buffer[4] := 0x2;
    buffer[buffer.Length - 1] := 0x3;
    forall i | 0 <= i < |raw| { buffer[5 + i] := raw[i]; }
    assert buffer[..4] == len;
    assert buffer[5..buffer.Length - 1] == raw;
    assert buffer[..] == buffer[..4] + [buffer[4]] + buffer[5..buffer.Length - 1] + [buffer[buffer.Length - 1]];
  }

  function PacketSize(crc: Checksum, data: Bytes, ts: nat): nat {
    6 + 3 + VarintLength(|data|) + |data| + VarintLength(Crc(crc, data)) + VarintLength(ts)
  }

  lemma PacketSizeIs(crc: Checksum, data: Bytes, ts: nat)
    ensures |Build(crc, data, ts)| == PacketSize(crc, data, ts)
  {
    VarintLengthIs(|data|);
    VarintLengthIs(Crc(crc, data));
    VarintLengthIs(ts);
  }

  /** The protobuf and framing overhead of a packet is between 12 and 33 bytes; for data below 2^21
      bytes it is at most 27. */
  lemma PacketOverhead(crc: Checksum, data: Bytes, ts: nat)
    requires ts < TWO_64 && |data| < 0x20_0000
    ensures |data| + 12 <= PacketSize(crc, data, ts) <= |data| + 27
  {
    SixtyFourBits();
    VarintLengthBound(ts, 10);
    assert Pow128(5) == 0x8_0000_0000 && Pow128(3) == 0x20_0000;
    ShortVarint(Crc(crc, data), 5);
    ShortVarint(|data|, 3);
  }

  function Pow128(room: nat): nat {
    if room == 0 then 1 else 128 * Pow128(room - 1)
  }

  lemma {:induction false} ShortVarint(n: nat, room: nat)
    requires 1 <= room && n < Pow128(room)
    ensures 1 <= VarintLength(n) <= room
  {
    if n >= 128 {
      assert room > 1;
      ShortVarint(n / 128, room - 1);
    }
  }

  lemma AtLeastTwelve(crc: Checksum, data: Bytes, ts: nat)
    ensures PacketSize(crc, data, ts) >= |data| + 12
  {
  }

  /** Where the parts of an envelope are. */
  lemma Envelope(len: Bytes, raw: Bytes, rest: Bytes)
    requires |len| == 4
    ensures var p := len + [0x2] + raw + [0x3]; var w, n := p + rest, |raw| + 6;
            && |p| == n && w[..4] == len && w[4] == 0x2 && w[n - 1] == 0x3
            && w[5..n - 1] == raw && w[..n] == p && w[n..] == rest
  {
    var p := len + [0x2] + raw + [0x3];
    var n := |p|;
    TakeFront(p, rest, n);
    assert p[..n] == p && p[n..] + rest == rest;
    assert p[5..n - 1] == raw && p[..4] == len;
    assert (p + rest)[5..n - 1] == p[5..n - 1];
  }

  lemma FrontWord(w: Bytes)
    requires |w| >= 4
    ensures GetU32(w) == GetU32(w[..4])
  {
  }

  /** Where a packet's parts are, whatever follows it. */
  lemma PacketFields(crc: Checksum, data: Bytes, ts: nat, rest: Bytes)
    requires PacketSize(crc, data, ts) < TWO_32
    ensures var w := Build(crc, data, ts) + rest; var n := PacketSize(crc, data, ts);
            && n >= 12 && |w| >= n && GetU32(w) == n && w[4] == 0x2 && w[n - 1] == 0x3
            && w[5..n - 1] == Body(crc, data, ts) && w[..n] == Build(crc, data, ts) && w[n..] == rest
  {
    hide Body, PacketSize, PutU32, GetU32;
    PacketSizeIs(crc, data, ts);
    AtLeastTwelve(crc, data, ts);
    var raw := Body(crc, data, ts);
    var n := |raw| + 6;
    Envelope(PutU32(n), raw, rest);
    GetPutU32(n);
    FrontWord(Build(crc, data, ts) + rest);
  }

  /** A receiver with limit `max` accepts a packet, whatever follows it, exactly when it fits. */
  lemma PacketAcceptedIff(crc: Checksum, data: Bytes, ts: nat, max: nat, rest: Bytes)
    requires PacketSize(crc, data, ts) < TWO_32
    ensures CheckReadyWithLength(Build(crc, data, ts) + rest, max) == Ready(PacketSize(crc, data, ts))
            <==> PacketSize(crc, data, ts) <= max
  {
    PacketFields(crc, data, ts, rest);
  }

  /** The data of an accepted packet is the data it was built from, and the age test passes exactly
      while the packet is not older than `delims` milliseconds. */
  lemma GetDataOfBuild(crc: Checksum, data: Bytes, ts: nat, delims: nat, now: nat)
    requires PacketSize(crc, data, ts) <= MAX_BYTE_PER_PACKET && ts < TWO_64
    ensures var r := GetDataCheckTs(crc, Build(crc, data, ts), delims, now);
            && (r == None || r == Some(data))
            && (r == Some(data) <==> delims == 0 || now <= (ts + delims) % TWO_64)
  {
    hide Unmarshal, Marshal, PacketSize, Build, CheckReadyWithLength;
    var p := Build(crc, data, ts);
    AtLeastTwelve(crc, data, ts);
    PacketFields(crc, data, ts, []);
    assert p + [] == p;
    PacketAcceptedIff(crc, data, ts, MAX_BYTE_PER_PACKET, []);
    UnmarshalMarshal(DataPacket(data, Crc(crc, data), ts));
  }

  /** The check looks only at bytes it holds: its verdict on a part is its verdict on the whole. */
  lemma CheckIsStable(w: Bytes, k: nat, max: nat)
    requires k <= |w|
    ensures CheckReadyWithLength(w[..k], max) != NeedMore
            ==> CheckReadyWithLength(w[..k], max) == CheckReadyWithLength(w, max)
    ensures CheckReadyWithLength(w, max).Ready? && CheckReadyWithLength(w, max).total <= k && k > 6
            ==> CheckReadyWithLength(w[..k], max) == CheckReadyWithLength(w, max)
  {
    if k > 6 { assert GetU32(w[..k]) == GetU32(w); }
  }

  /** Whether the whole of `held` and `below` makes the check panic shows in `held`, once it has a
      verdict. */
  lemma PanicsByPart(held: Bytes, below: Bytes, max: nat)
    ensures CheckReadyWithLength(held, max) == Crash ==> ZeroLength(held + below)
    ensures ZeroLength(held + below) ==> CheckReadyWithLength(held, max) == Crash || CheckReadyWithLength(held, max) == NeedMore
    ensures ZeroLength(held + below) && below == [] ==> CheckReadyWithLength(held, max) == Crash
  {
    hide CheckReadyWithLength, ZeroLength;
    var w := held + below;
    assert w[..|held|] == held;
    CheckIsStable(w, |held|, max);
    PanicsIffZeroLength(w, max);
    if below == [] { assert w == held; }
  }

  /** Every strict prefix of a fitting packet asks for more. */
  lemma StrictPrefixNeedsMore(crc: Checksum, data: Bytes, ts: nat, max: nat, k: nat)
    requires PacketSize(crc, data, ts) <= max < TWO_32 && k < PacketSize(crc, data, ts)
    ensures |Build(crc, data, ts)| == PacketSize(crc, data, ts)
    ensures CheckReadyWithLength(Build(crc, data, ts)[..k], max) == NeedMore
  {
    var p := Build(crc, data, ts);
    PacketSizeIs(crc, data, ts);
    PacketFields(crc, data, ts, []);
    assert p + [] == p;
    if k > 6 { assert GetU32(p[..k]) == GetU32(p); }
  }

  // ---------- what is accepted, honest or not ----------

  /** The check accepts exactly an envelope at the head of the stream: a length in network order that
      counts all of it and is within the limit, 0x2, a body, 0x3; and more than 6 bytes must be held. */
  lemma AcceptsIff(w: Bytes, max: nat, n: nat)
    ensures CheckReadyWithLength(w, max) == Ready(n) <==>
              && |w| > 6 && 6 <= n <= max && n <= |w|
              && BigEndian(w[..4]) == n && w[4] == 0x2 && w[n - 1] == 0x3
  {
    if |w| > 6 {
      GetU32IsBigEndian(w);
      if 1 <= GetU32(w) < 6 && w[4] == 0x2 { ShortLengths(w); }
    }
  }

  /** A length of 1 to 5 cannot be named with both delimiters in place. */
  lemma ShortLengths(w: Bytes)
    requires |w| > 6 && 1 <= GetU32(w) < 6 && w[4] == 0x2
    ensures w[GetU32(w) - 1] != 0x3
  {
    var n := GetU32(w);
    PutGetU32(w[..4]);
    assert GetU32(w[..4]) == n && PutU32(n) == w[..4];
  }

  /** It refuses exactly what no continuation can make acceptable, and does not panic on. */
  lemma RefusesIff(w: Bytes, max: nat)
    requires |w| > 6
    ensures CheckReadyWithLength(w, max).Bad? <==>
              var n := BigEndian(w[..4]);
              n > max || w[4] != 0x2 || (1 <= n <= |w| && w[n - 1] != 0x3)
  {
    GetU32IsBigEndian(w);
  }

  /** Of a whole envelope around any marshalled packet, honest or damaged: it yields data exactly if the
      checksum carried is that of the data and the age test passes, and then that data. */
  lemma DataIff(crc: Checksum, w: Bytes, p: DataPacket, delims: nat, now: nat)
    requires CheckReady(w) == Ready(|w|) && w[5..|w| - 1] == Marshal(p)
    requires |p.data| < TWO_64 && p.crc < TWO_32 && p.ts < TWO_64
    ensures GetDataCheckTs(crc, w, delims, now) ==
            if p.crc == crc(p.data) % 0x1_0000_0000 && (delims == 0 || now <= (p.ts + delims) % 0x1_0000_0000_0000_0000)
            then Some(p.data) else None
  {
    hide Marshal, Unmarshal;
    AcceptsIff(w, MAX_BYTE_PER_PACKET, |w|);
    UnmarshalMarshal(p);
  }

  /** What cannot be parsed yields nothing. */
  lemma NoDataIfUnparsed(crc: Checksum, w: Bytes, delims: nat, now: nat)
    requires CheckReady(w) == Ready(|w|) && |w| >= 6 && Unmarshal(w[5..|w| - 1], EMPTY) == None
    ensures GetDataCheckTs(crc, w, delims, now) == None
  {
  }

  /** A packet around given data with a given checksum, which `Build` makes with the right one. */
  function Envelop(p: DataPacket): Bytes {
    PutU32(|Marshal(p)| + 6) + [0x2] + Marshal(p) + [0x3]
  }

  /** What is sent is the envelope around the data with its own checksum. */
  lemma BuildIs(crc: Checksum, data: Bytes, ts: nat)
    ensures Build(crc, data, ts) == Envelop(DataPacket(data, crc(data) % 0x1_0000_0000, ts))
  {
  }

  lemma EnvelopSize(p: DataPacket)
    ensures |Envelop(p)| == |Marshal(p)| + 6
  {
  }

  /** A damaged packet: it passes the envelope's check and yields nothing. */
  lemma DamagedYieldsNothing(crc: Checksum, p: DataPacket, rest: Bytes, delims: nat, now: nat)
    requires |p.data| < TWO_64 && p.crc < TWO_32 && p.ts < TWO_64 && |Marshal(p)| + 6 <= MAX_BYTE_PER_PACKET
    requires p.crc != crc(p.data) % 0x1_0000_0000
    ensures var n := |Envelop(p)|; var w := Envelop(p) + rest;
            && n == |Marshal(p)| + 6 && w[..n] == Envelop(p)
            && (forall max :: n <= max ==> CheckReadyWithLength(w, max) == Ready(n))
            && GetDataCheckTs(crc, Envelop(p), delims, now) == None
  {
    hide Marshal, Unmarshal, CheckReadyWithLength, GetDataCheckTs, PutU32, GetU32, BigEndian;
    var e, n := Envelop(p), |Marshal(p)| + 6;
    MarshalNotEmpty(p);
    EnvelopeStands(p, rest);
    EnvelopeStands(p, []);
    assert e + [] == e && e[5..n - 1] == Marshal(p);
    forall max | n <= max ensures CheckReadyWithLength(e + rest, max) == Ready(n) { AcceptsIff(e + rest, max, n); }
    AcceptsIff(e, MAX_BYTE_PER_PACKET, n);
    DataIff(crc, e, p, delims, now);
  }

  lemma EnvelopeStands(p: DataPacket, rest: Bytes)
    requires |Marshal(p)| + 6 < TWO_32
    ensures var e, n := Envelop(p), |Marshal(p)| + 6; var w := e + rest;
            && |e| == n && w[..n] == e && BigEndian(w[..4]) == n && w[4] == 0x2 && w[n - 1] == 0x3 && w[5..n - 1] == Marshal(p)
  {
    hide Marshal, PutU32, GetU32;
    var n := |Marshal(p)| + 6;
    Envelope(PutU32(n), Marshal(p), rest);
    GetPutU32(n);
    FrontWord(Envelop(p) + rest);
    GetU32IsBigEndian(Envelop(p) + rest);
  }

  lemma MarshalNotEmpty(p: DataPacket)
    ensures |Marshal(p)| >= 3
  {
  }
}
