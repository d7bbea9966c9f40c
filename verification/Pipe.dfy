/** Copying between connections (net_utils/net_utils.go): one direction of `Pipe`, from the tunnel to
    a raw connection, which goes on after read timeouts. */
module Pipe {
  import opened Octets
  import opened MixLayer
  import opened Relay
  import opened Exchange
  import MixStream
  import Packet
  import RS = RelayStream

  /** What is left to do for a copying loop: bytes to deliver, and packet bytes to consume. */
  ghost function Left<S>(src: RelayFrameConn<S>): nat
    reads src, src.conn, src.conn.conn.Repr()
  {
    |src.Pending()| + |src.Raw()|
  }

  /** `DataCopy`. A failed write loses exactly the bytes it was given, beyond the part that went out.
      Without an error bytes were moved or an empty packet consumed; errors are the network's or, of
      the stream, the packet reader's. */
  method DataCopy<S>(src: RelayFrameConn<S>, dst: RawConn, buffer: array<byte>)
    returns (rcnt: nat, wcnt: nat, rerr: Option<NetError>, werr: Option<NetError>)
    requires src.Valid() && buffer.Length > 0 && buffer != src.rtmp && buffer != src.conn.rtmp && dst != src.conn.conn.conn
    modifies buffer, src`rbuf, src`rdbuf, src`eaten, src`plain, src`given, src.rtmp
    modifies src.conn`rbuf, src.conn`decbuf, src.conn`initRead, src.conn`rState, src.conn`eaten, src.conn`plain, src.conn`given, src.conn.rtmp
    modifies src.conn.conn`rbuf, src.conn.conn`counter, src.conn.conn`seen, src.conn.conn`given
    modifies src.conn.conn.conn`inbox, src.conn.conn.conn`trouble, dst`outbox, dst`faults
    ensures src.Valid()
    ensures rcnt <= |old(src.Pending())| && src.Pending() == old(src.Pending())[rcnt..]
    ensures werr == None ==> wcnt == rcnt && dst.outbox == old(dst.outbox) + old(src.Pending())[..rcnt]
    ensures werr != None ==> wcnt == 0 && rerr == None && dst.outbox <= old(dst.outbox) + old(src.Pending())[..rcnt]
    ensures old(dst.outbox) <= dst.outbox && dst.faults == old(dst.faults) + if werr == None then 0 else 1
    ensures if rerr == None then Left(src) < old(Left(src)) else Left(src) <= old(Left(src))
    ensures rerr != None ==> rcnt == 0
    ensures Reported(rerr, old(src.conn.Trouble()), src.conn.Trouble())
    ensures old(src.IsClean()) ==>
              && src.IsClean()
              && (rerr == None || rerr == Some(Timeout) || rerr == Some(Eof))
              && (RanDry(rerr, old(src.conn.Trouble()), src.conn.Trouble()) ==> src.Pending() == [])
  {
    hide RelayFrameConn.Valid, MixLayerAdaptor.Valid, MixStream.Deframe, MixStream.Clean, RS.Unpack, RS.Clean, Packet.ZeroLength;
    ghost var due := src.Pending();
    rcnt, rerr := src.Read(buffer, 0);
    assert buffer[0..0 + rcnt] == buffer[..rcnt] == due[..rcnt];
    if rerr != None && rcnt == 0 {
      assert dst.outbox + [] == dst.outbox;
      return 0, 0, rerr, None;
    }
    werr := dst.SendSpecLen(buffer[..rcnt]);
    wcnt := if werr == None then rcnt else 0;
  }

  /** One goroutine of `Pipe`, observed for up to `rounds` copies, of which it makes `copies`; `done(i)`
      is the context at the i-th. Through any number of timeouts the destination receives exactly the
      bytes taken from the tunnel, in order. The loop goes on until an error that is no timeout, or a
      timeout when the context is done; every copy makes progress but those that time out and the last.
      So a clean tunnel is copied to its end, in at most as many copies as bytes are left, unless the
      network stalls or a write fails. */
  method PipeDirection<S>(src: RelayFrameConn<S>, dst: RawConn, buffer: array<byte>, rounds: nat, done: nat -> bool)
    returns (sr: nat, dw: nat, sre: Option<NetError>, dwe: Option<NetError>, ghost copies: nat)
    requires src.Valid() && buffer.Length > 0 && buffer != src.rtmp && buffer != src.conn.rtmp && dst != src.conn.conn.conn
    modifies buffer, src`rbuf, src`rdbuf, src`eaten, src`plain, src`given, src.rtmp
    modifies src.conn`rbuf, src.conn`decbuf, src.conn`initRead, src.conn`rState, src.conn`eaten, src.conn`plain, src.conn`given, src.conn.rtmp
    modifies src.conn.conn`rbuf, src.conn.conn`counter, src.conn.conn`seen, src.conn.conn`given
    modifies src.conn.conn.conn`inbox, src.conn.conn.conn`trouble, dst`outbox, dst`faults
    ensures src.Valid()
    ensures sr <= |old(src.Pending())| && dw <= sr
    ensures src.Pending() == old(src.Pending())[sr..]
    ensures dwe == None ==> dw == sr && dst.outbox == old(dst.outbox) + old(src.Pending())[..sr]
    ensures dwe != None ==> old(dst.outbox) + old(src.Pending())[..dw] <= dst.outbox <= old(dst.outbox) + old(src.Pending())[..sr]
    ensures dst.faults == old(dst.faults) + if dwe == None then 0 else 1
    ensures copies <= rounds
    ensures copies < rounds ==>
              || dwe != None
              || (sre != None && sre != Some(Timeout))
              || (sre == Some(Timeout) && copies >= 1 && done(copies - 1))
    ensures copies + Left(src) <= old(Left(src)) + (src.conn.Trouble().timeouts - old(src.conn.Trouble().timeouts))
                                + if sre == None || sre == Some(Timeout) then 0 else 1
    ensures old(src.IsClean()) && dwe == None && rounds > old(Left(src)) && src.conn.Trouble().stalls == old(src.conn.Trouble().stalls) ==>
              dst.outbox == old(dst.outbox) + old(src.Pending())
  {
    hide RelayFrameConn.Valid, RelayFrameConn.IsClean, RelayFrameConn.Pending, Left;
    ghost var due, out, clean, left, t0 := src.Pending(), dst.outbox, src.IsClean(), Left(src), src.conn.Trouble();
    sr, dw, sre, dwe, copies := 0, 0, None, None, 0;
    NothingCopied(due, out);
    for i := 0 to rounds
      invariant src.Valid() && dw == sr <= |due| && dwe == None && dst.faults == old(dst.faults)
      invariant src.Pending() == due[sr..] && dst.outbox == out + due[..sr]
      invariant clean ==> src.IsClean()
      invariant sre == None || sre == Some(Timeout)
      invariant copies == i && t0.stalls <= src.conn.Trouble().stalls && t0.timeouts <= src.conn.Trouble().timeouts
      invariant copies + Left(src) <= left + (src.conn.Trouble().timeouts - t0.timeouts)
      invariant clean && src.conn.Trouble().stalls == t0.stalls ==> src.Pending() == [] || copies + Left(src) <= left
    {
      var r, w;
      r, w, sre, dwe := DataCopy(src, dst, buffer);
      CopiedMore(due, out, sr, r);
      sr, dw, copies := sr + r, dw + w, copies + 1;
      if sre == None && dwe == None {
        continue;
      }
      if sre == Some(Eof) || dwe == Some(Eof) {
        return;
      }
      if sre == Some(Timeout) {
        if done(i) {
          return;
        }
      } else {
        return;
      }
    }
    AllCopied(due, sr);
  }

  lemma NothingCopied(due: Bytes, out: Bytes)
    ensures due[0..] == due && out + due[..0] == out
  {
  }

  lemma AllCopied(due: Bytes, sr: nat)
    requires sr <= |due|
    ensures due[sr..] == [] ==> due[..sr] == due
  {
  }

  /** The next `r` bytes due, taken and copied. */
  lemma CopiedMore(due: Bytes, out: Bytes, sr: nat, r: nat)
    requires sr <= |due| && r <= |due[sr..]|
    ensures due[sr..][r..] == due[sr + r..]
    ensures out + due[..sr] + due[sr..][..r] == out + due[..sr + r]
    ensures due[sr + r..] == [] ==> due[..sr + r] == due
    ensures |due[sr + r..]| == |due[sr..]| - r
  {
  }
}
