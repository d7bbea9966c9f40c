/** The raw connection and the padding layer over it (exchange/exchange_conn.go with the read
    filter of transport/trans_pad/trans_pad.go). Pad lengths 0 and 0 are plain TCP. */
module Exchange {
  import opened Octets

  /** What the reads of a raw connection have met: timeouts, those of them that came although bytes were
      there to read, and reports of the end. */
  datatype Trouble = Trouble(timeouts: nat, stalls: nat, ends: nat)

  const NO_TROUBLE := Trouble(0, 0, 0)

  /** A read up the stack that ended in `err` met on the raw connection just what it reports. */
  predicate Reported(err: Option<NetError>, before: Trouble, after: Trouble) {
    match err
    case Some(Timeout) =>
      && after.timeouts == before.timeouts + 1 && after.ends == before.ends
      && before.stalls <= after.stalls <= before.stalls + 1
    case Some(Eof) => after == before.(ends := before.ends + 1)
    case _ => after == before
  }

  /** It ended because the network had nothing more, and not by a stall. */
  predicate RanDry(err: Option<NetError>, before: Trouble, after: Trouble) {
    err == Some(Eof) || (err == Some(Timeout) && after.stalls == before.stalls)
  }

  /** It timed out although bytes were there to read. */
  predicate Stalled(err: Option<NetError>, before: Trouble, after: Trouble) {
    err == Some(Timeout) && before.stalls < after.stalls
  }

  /** A reliable connection below the tunnel. `inbox` holds the bytes that will have arrived when a
      read looks at them, `outbox` everything handed to the network. A read returns any positive
      number of available bytes, or fails; a failed write may have sent any part of its buffer. The
      ghost fields count the failures, so that the layers above can say which of theirs are the
      network's. */
  class RawConn {
    var inbox: Bytes
    var outbox: Bytes
    ghost var trouble: Trouble
    ghost var faults: nat

    constructor ()
      ensures inbox == [] && outbox == [] && trouble == NO_TROUBLE && faults == 0
    {
      inbox, outbox, trouble, faults := [], [], NO_TROUBLE, 0;
    }

    /** The network brings more bytes. */
    method Arrive(more: Bytes)
      modifies this`inbox
      ensures inbox == old(inbox) + more
    {
      inbox := inbox + more;
    }

    method Read(b: array<byte>, off: nat) returns (n: nat, err: Option<NetError>)
      requires off < b.Length
      modifies this`inbox, this`trouble, b
      ensures off + n <= b.Length && n <= |old(inbox)|
      ensures b[..off] == old(b[..off]) && b[off..off + n] == old(inbox)[..n]
      ensures inbox == old(inbox)[n..]
      ensures err == None <==> n >= 1
      ensures err == None || err == Some(Timeout) || err == Some(Eof)
      ensures Reported(err, old(trouble), trouble) && (RanDry(err, old(trouble), trouble) ==> inbox == [])
    {
      var fails: bool, closed: bool := *, *;
      if inbox == [] && closed {
        n, err := 0, Some(Eof);
        trouble := trouble.(ends := trouble.ends + 1);
      } else if inbox == [] || fails {
        n, err := 0, Some(Timeout);
        trouble := Trouble(trouble.timeouts + 1, if inbox == [] then trouble.stalls else trouble.stalls + 1, trouble.ends);
      } else {
        var most := Min(|inbox|, b.Length - off);
        n :| 1 <= n <= most;
        err := None;
        CopyInto(b, off, inbox[..n]);
        inbox := inbox[n..];
      }
    }

    method Write(b: Bytes) returns (n: nat, err: Option<NetError>)
      modifies this`outbox, this`faults
      ensures n <= |b| && outbox == old(outbox) + b[..n]
      ensures err == None && b != [] ==> n >= 1
      ensures faults == old(faults) + if err == None then 0 else 1
    {
      var fails: bool := *;
      if b == [] {
        n, err := 0, None;
      } else if fails {
        n :| 0 <= n <= |b|;
        err := Some(Timeout);
        faults := faults + 1;
      } else {
        n :| 1 <= n <= |b|;
        err := None;
      }
      outbox := outbox + b[..n];
    }

    /** `net_utils.SendSpecLen`: everything, in order, unless a write fails; then some prefix. */
    method SendSpecLen(buf: Bytes) returns (err: Option<NetError>)
      modifies this`outbox, this`faults
      ensures err == None ==> outbox == old(outbox) + buf
      ensures old(outbox) <= outbox <= old(outbox) + buf
      ensures faults == old(faults) + if err == None then 0 else 1
    {
      var index := 0;
      while index < |buf|
        invariant 0 <= index <= |buf|
        invariant outbox == old(outbox) + buf[..index] && faults == old(faults)
      {
        ghost var before := outbox;
        var cur, e := Write(buf[index..]);
        assert buf[index..][..cur] == buf[index..index + cur];
        assert buf[..index] + buf[index..index + cur] == buf[..index + cur];
        assert outbox == old(outbox) + buf[..index + cur];
        if e != None {
          return e;
        }
        index := index + cur;
      }
      err := None;
      assert buf[..index] == buf;
    }
  }

  class ExchangeConn {
    const conn: RawConn
    var rbuf: Bytes
    var wbuf: Bytes
    /** The counter captured by `ExchangeAdaptor`: bytes of the wire still to be dropped. */
    var counter: nat

    // History: the pad length, the wire bytes taken so far, and the bytes handed on.
    ghost var start: nat
    ghost var seen: Bytes
    ghost var given: Bytes

    /** Everything that ever arrived. */
    ghost function Arrived(): Bytes
      reads this, conn
    {
      seen + conn.inbox
    }

    ghost predicate Valid()
      reads this
    {
      given + rbuf == Skip(start, seen) && counter == start - Min(start, |seen|)
    }

    /** The same with nothing buffered: what passed the filter was handed on. */
    ghost predicate Sifted()
      reads this
    {
      rbuf == [] && given == Skip(start, seen) && counter == start - Min(start, |seen|)
    }

    ghost function Repr(): set<object> {
      {this, conn}
    }

    /** What the filter will pass of the bytes still below. */
    ghost function Below(): Bytes
      reads Repr()
    {
      Skip(counter, conn.inbox)
    }

    /** The bytes this layer will deliver. */
    ghost function Pending(): Bytes
      reads Repr()
    {
      rbuf + Skip(counter, conn.inbox)
    }

    /** What is on the wire, plus the leading pad still held back. */
    ghost function Out(): Bytes
      reads Repr()
    {
      conn.outbox + wbuf
    }

    ghost function Wire(): Bytes
      reads Repr()
    {
      conn.outbox
    }

    /** `NewExchangeConn` with `padAndCount` on the read side and no write filter. */
    constructor (conn: RawConn, rbuf: Bytes, wbuf: Bytes, skip: nat)
      ensures Valid() && this.conn == conn && start == skip && seen == rbuf && given == []
      ensures Pending() == Skip(skip, rbuf + conn.inbox)
      ensures this.wbuf == wbuf && Out() == conn.outbox + wbuf
    {
      this.conn, this.wbuf := conn, wbuf;
      this.counter := skip - Min(skip, |rbuf|);
      this.rbuf := Skip(skip, rbuf);
      start, seen, given := skip, rbuf, [];
    }

    method PadAndCount(b: Bytes) returns (data: Bytes, changed: bool)
      modifies this`counter
      ensures data == Skip(old(counter), b)
      ensures counter == old(counter) - Min(old(counter), |b|)
      ensures !changed ==> data == b
    {
      if counter == 0 {
        return b, false;
      }
      var skip := counter;
      if skip > |b| {
        skip := |b|;
      }
      counter := counter - skip;
      return b[skip..], true;
    }

    /** A read into a buffer with room never returns 0 bytes without an error: it loops while the
        filter swallows everything. */
    method Read(b: array<byte>, off: nat) returns (n: nat, err: Option<NetError>)
      requires Valid() && off < b.Length
      modifies this`rbuf, this`counter, this`seen, this`given, conn`inbox, conn`trouble, b
      ensures Valid() && Arrived() == old(Arrived())
      ensures off + n <= b.Length && n <= |old(Pending())|
      ensures b[..off] == old(b[..off]) && b[off..off + n] == old(Pending())[..n]
      ensures given == old(given) + b[off..off + n]
      ensures Pending() == old(Pending())[n..]
      ensures err == None <==> n >= 1
      ensures err == None || err == Some(Timeout) || err == Some(Eof)
      ensures Reported(err, old(conn.trouble), conn.trouble) && (RanDry(err, old(conn.trouble), conn.trouble) ==> Pending() == [])
    {
      hide Skip;
      if |rbuf| != 0 {
        n := Serve(b, off);
        return n, None;
      }
      NothingBuffered(rbuf, given);
      NothingBuffered(rbuf, Below());
      n, err := ReadThrough(b, off);
      NothingBuffered(rbuf, given);
      NothingBuffered(rbuf, Below());
    }

    /** Hand out what is buffered. */
    method Serve(b: array<byte>, off: nat) returns (n: nat)
      requires Valid() && off < b.Length && rbuf != []
      modifies this`rbuf, this`given, b
      ensures Valid()
      ensures 1 <= n && off + n <= b.Length && n <= |old(Pending())|
      ensures b[..off] == old(b[..off]) && b[off..off + n] == old(Pending())[..n]
      ensures given == old(given) + b[off..off + n]
      ensures Pending() == old(Pending())[n..]
    {
      hide Skip;
      n := Min(|rbuf|, b.Length - off);
      TakeFront(rbuf, Below(), n);
      Assoc(given, rbuf[..n], rbuf[n..]);
      CopyInto(b, off, rbuf[..n]);
      given := given + rbuf[..n];
      rbuf := rbuf[n..];
    }

    /** The loop of `Read`. It ends because every read it swallows is counted off the pad. */
    method ReadThrough(b: array<byte>, off: nat) returns (n: nat, err: Option<NetError>)
      requires Sifted() && off < b.Length
      modifies this`counter, this`seen, this`given, conn`inbox, conn`trouble, b
      ensures Sifted() && Arrived() == old(Arrived())
      ensures off + n <= b.Length && n <= |old(Below())|
      ensures b[..off] == old(b[..off]) && b[off..off + n] == old(Below())[..n]
      ensures given == old(given) + b[off..off + n]
      ensures Below() == old(Below())[n..]
      ensures err == None <==> n >= 1
      ensures err == None || err == Some(Timeout) || err == Some(Eof)
      ensures Reported(err, old(conn.trouble), conn.trouble) && (RanDry(err, old(conn.trouble), conn.trouble) ==> Below() == [])
    {
      hide Skip;
      while true
        invariant Sifted() && Below() == old(Below()) && conn.trouble == old(conn.trouble)
        invariant Arrived() == old(Arrived()) && given == old(given)
        invariant b[..off] == old(b[..off])
        decreases counter
      {
        n, err := ReadOnce(b, off);
        if err != None || n != 0 {
          return;
        }
      }
    }

    /** One turn: a read below, the filter, and the filtered bytes moved to the front. */
    method ReadOnce(b: array<byte>, off: nat) returns (n: nat, err: Option<NetError>)
      requires Sifted() && off < b.Length
      modifies this`counter, this`seen, this`given, conn`inbox, conn`trouble, b
      ensures Sifted() && Arrived() == old(Arrived())
      ensures off + n <= b.Length && n <= |old(Below())|
      ensures b[..off] == old(b[..off]) && b[off..off + n] == old(Below())[..n]
      ensures given == old(given) + b[off..off + n]
      ensures Below() == old(Below())[n..]
      ensures err == None && n == 0 ==> counter < old(counter)
      ensures err != None ==> n == 0 && (err == Some(Timeout) || err == Some(Eof))
      ensures Reported(err, old(conn.trouble), conn.trouble) && (RanDry(err, old(conn.trouble), conn.trouble) ==> Below() == [])
    {
      hide Skip;
      ghost var inbox, count := conn.inbox, counter;
      var cnt, e := conn.Read(b, off);
      if e != None {
        return 0, e;
      }
      ghost var got := b[off..off + cnt];
      FilterStep(start, seen, count, inbox, cnt);
      n := Sift(b, off, cnt);
      err := None;
      seen, given := seen + got, given + Skip(count, got);
    }

    /** The filter over the `cnt` bytes just read, what it passes moved to the front. */
    method Sift(b: array<byte>, off: nat, cnt: nat) returns (n: nat)
      requires off + cnt <= b.Length
      modifies this`counter, b
      ensures n <= cnt && b[..off] == old(b[..off]) && b[off..off + n] == Skip(old(counter), old(b[off..off + cnt]))
      ensures counter == old(counter) - Min(old(counter), cnt) && (n < cnt ==> counter < old(counter))
    {
      hide Skip;
      var filter, chg := PadAndCount(b[off..off + cnt]);
      if chg {
        CopyInto(b, off, filter);
      }
      n := |filter|;
    }

    /** The pad held in `wbuf` precedes the first data. */
    method Write(b: Bytes) returns (n: nat, err: Option<NetError>)
      modifies this`wbuf, conn`outbox, conn`faults
      ensures old(Valid()) ==> Valid()
      ensures err == None ==> n == |b| && Out() == old(Out()) + b && wbuf == []
      ensures err != None ==> n == 0 && (wbuf == [] || wbuf == old(wbuf))
      ensures old(Wire()) <= Wire() <= old(Out()) + b
      ensures conn.faults == old(conn.faults) + if err == None then 0 else 1
    {
      if |wbuf| != 0 {
        var e := conn.SendSpecLen(wbuf);
        if e != None {
          PrefixGrows(conn.outbox, old(Out()), b);
          return 0, e;
        }
        wbuf := [];
      }
      if |b| != 0 {
        var e := conn.SendSpecLen(b);
        if e != None {
          return 0, e;
        }
      }
      return |b|, None;
    }

    method SendSpecLen(buf: Bytes) returns (err: Option<NetError>)
      modifies this`wbuf, conn`outbox, conn`faults
      ensures old(Valid()) ==> Valid()
      ensures err == None ==> Out() == old(Out()) + buf
      ensures old(Wire()) <= Wire() <= old(Out()) + buf
      ensures wbuf == [] || (wbuf == old(wbuf) && (buf == [] || err != None))
      ensures conn.faults == old(conn.faults) + if err == None then 0 else 1
    {
      var index := 0;
      PrefixGrows(Wire(), Wire(), wbuf);
      PrefixGrows(Wire(), Out(), buf);
      while index < |buf|
        invariant 0 <= index <= |buf|
        invariant Out() == old(Out()) + buf[..index]
        invariant old(Wire()) <= Wire() <= old(Out()) + buf
        invariant conn.faults == old(conn.faults) && (wbuf == [] || (wbuf == old(wbuf) && index == 0))
      {
        var rest := buf[index..];
        var cur, e := Write(rest);
        assert buf[..index] + rest == buf;
        assert old(Out()) + buf[..index] + rest == old(Out()) + buf;
        if e != None {
          return e;
        }
        index := index + cur;
        assert buf[..index] == buf;
        PrefixGrows(Wire(), Wire(), wbuf);
      }
      err := None;
      assert buf[..index] == buf;
    }
  }

  lemma NothingBuffered(buffered: Bytes, x: Bytes)
    requires buffered == []
    ensures buffered + x == x && x + buffered == x
  {
  }

  /** The wire without its first `n` bytes. */
  function Skip(n: nat, w: Bytes): (r: Bytes)
    ensures |r| == |w| - Min(n, |w|)
  {
    w[Min(n, |w|)..]
  }

  /** Dropping works piecewise: this is what the counter does across reads. */
  lemma SkipSplit(n: nat, w: Bytes, k: nat)
    requires k <= |w|
    ensures Skip(n, w) == Skip(n, w[..k]) + Skip(n - Min(n, k), w[k..])
  {
    assert w == w[..k] + w[k..];
  }

  /** The filter's step over `k` more bytes: what it passes on, what stays due, and the counter. */
  lemma FilterStep(n: nat, seen: Bytes, left: nat, w: Bytes, k: nat)
    requires k <= |w| && left == n - Min(n, |seen|)
    ensures var passed, due := Skip(left, w[..k]), Skip(left - Min(left, k), w[k..]);
            && Skip(left, w) == passed + due
            && Skip(left, w)[..|passed|] == passed && Skip(left, w)[|passed|..] == due
            && Skip(n, seen + w[..k]) == Skip(n, seen) + passed
            && left - Min(left, k) == n - Min(n, |seen + w[..k]|)
            && (seen + w[..k]) + w[k..] == seen + w
  {
    hide Skip;
    SkipSplit(left, w, k);
    var more, passed, due := w[..k], Skip(left, w[..k]), Skip(left - Min(left, k), w[k..]);
    TakeFront(passed, due, |passed|);
    assert passed[..|passed|] == passed && passed[|passed|..] + due == due;
    assert (seen + more)[..|seen|] == seen && (seen + more)[|seen|..] == more;
    SkipSplit(n, seen + more, |seen|);
    assert more + w[k..] == w;
    Assoc(seen, more, w[k..]);
  }

  lemma PrefixGrows(p: Bytes, x: Bytes, y: Bytes)
    requires p <= x
    ensures p <= x + y
  {
  }

  /** A peer that sends `pad` first and skips as many bytes delivers the data written, and any part
      of the wire gives a part of it. */
  lemma PadIsTransparent(pad: Bytes, data: Bytes, p: Bytes)
    requires p <= pad + data
    ensures Skip(|pad|, p) <= data
    ensures p == pad + data ==> Skip(|pad|, p) == data
    ensures |Skip(|pad|, p)| == if |p| <= |pad| then 0 else |p| - |pad|
  {
    PrefixSplit(p, pad, data);
  }
}
