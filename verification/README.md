# The wcf tunnel, modelled and verified in Dafny

wcf is a tunnelling proxy. Two of its nodes talk through a stack of connections: a relay packet layer
over an encrypting, framed layer, over an optional padding layer, over a raw connection. Around the
stack are the handshakes that hand a half-read connection to the next layer, a route table that decides
what a target's traffic is allowed to do, a load balancer, and a limit on the sessions of a user.
This project models those parts and proves what they promise. `dafny verify dfyconfig.toml` checks
all of it.

## The parts

**The byte-stream tunnel.** `Exchange`, `MixLayer` and `Relay` hold one class per connection, written as
the source writes it: buffers as fields, loops that fetch and decode, in-place copies into the caller's
array. Each class has a ghost function `Pending`, the bytes it will deliver, defined for *every* wire by
a total decoder on sequences (`MixStream.Deframe`, `RelayStream.Unpack`, `Exchange.Skip`). Every read is
proved to return the front of `Pending` and to leave the rest, errors and timeouts in mid-frame included,
so a layer's contract is the same as that of the connection below it and the layers compose. `Clean` says
of a wire that its decoder meets no protocol error. The raw connection at the bottom counts its own
failures in ghost fields: reads that time out, those of them that stall although bytes are at hand, reports
of the end, and failed writes. Every read and send up the stack is proved to fail only with one of these,
or with a protocol error of the stream, so that progress is part of every contract.

The other half is about honest wires: what a writer puts there is decoded, from every prefix, to a prefix
of the messages written (`MixStream.HonestPrefix`, `RelayStream.HonestPrefix`). `Tunnel` puts the two
halves together, as a theorem about the three decoders (`TunnelDelivers`) and as a program that plays any
script of sends, partial deliveries and reads, in both directions at once, on two stacks (`Session`); if no
write fails and no read stalls, all that was sent is delivered in the end (`Conversation`).

`Frame`, `Packet`, `Codec`, `XorCodec` and `BlockCodec` are the encodings: frames with their two macs,
protobuf packets with checksum and age, and the codec contract `Paired` with its three instances. Each is
specified by a function, and what that function computes is stated apart from it, byte by byte, for what
is written and for everything that is accepted or refused, honest or not (`Frame.FrameIs`,
`Frame.DecodesIff`, `Packet.DataIff`, `MixStream.TakesOnlyAuthentic`, `XorCodec.ByteIs`).

**Handshakes.** `Handshake` (relay, both sides) and `Socks` (SOCKS5 client) read into a fixed buffer,
judge what they have, and hand over exactly the bytes they did not use. In both, a function gives the
verdict on a whole stream, the loop is proved to reach that verdict under every chunking, and the
connection handed over is proved to deliver exactly what follows. On any stream the relay acceptor answers,
the client takes itself for admitted exactly if it is (`Handshake.BothSidesAgree`). `Pipe` is the copying
loop that goes on after timeouts.

**The route index.** `Bits` and `Cidr` turn prefixes into ranges by the source's masks and prove them
exact and laminar; `RangeList` specifies the merge and proves what it keeps; `Host` holds the mutable
range objects, the in-place sort and merge, the binary search, the suffix search over names and the rule
table, all against the lines of the rule file.

**The load balancer.** `Balance` specifies one item's steps, the weighted choice and runs; `LoadBalance`
holds the items mutated behind the map, with both loops in unrelated orders. What a success, a failure, a
choice and a scan cost or gain is stated on the table, and what every item's share of the draws is after
any run (`LoadBalance.SharesInAnyRun`).

**Sessions.** `Sessions` holds the limiter object and a state machine whose steps are those of sessions
creating a context by double-checked locking, taking a unit and giving it back, in any interleaving. The
limit is kept, a session that leaves makes room for the next, and nobody is stuck (`Sessions.NobodyIsStuck`).

## What turned out false of the code

Each of these is a lemma or a clause of a contract: a failing input, and the exact condition on the input
under which the code does what it should.

- `DecodeHeadFrame` never looks at the mac of the length field. What it accepts re-encodes to the same
  bytes if and only if that mac is right (`Frame.ReencodesIffHeaderMac`, with the failing frame in
  `Frame.HeaderMacNotRechecked`).
- Padding does not carry the empty message, and a frame without data is refused: an empty write to the mix
  layer does not cross it (`BlockCodec.UnpadPad`, `Frame.FrameAcceptedIff`). One to the relay layer does,
  as an empty packet.
- Unpadding looks at the last byte alone. A ciphertext that decodes is the encoding of its message if and
  only if it decrypts to bytes whose last one, p, is between 1 and the block size and is repeated p times
  at the end (`BlockCodec.EncodeUndoesDecode`, with failing ciphertexts for every permutation in
  `BlockCodec.BadPaddingAccepted`).
- `RelayFrameConn.Write` cuts a large argument to four fifths of its own length. Up to 40927 bytes the
  packet fits the receiver; from 40944 on it is refused, as long as its size fits the 32-bit length field.
  In between its exact size decides (`RelayStream.CutFits`, `RelayStream.LargeWriteRefused`,
  `Packet.PacketAcceptedIff`).
- The packet check panics if and only if it holds more than 6 bytes, the length field is 0 and the start
  delimiter is in place (`Packet.PanicsIffZeroLength`, with such a stream). Both handshakes and the
  packet reader then panic; nothing in the repository recovers. Their contracts tell this outcome apart and
  say of the stream when it occurs (`Handshake.JudgePanicsIff`, `Handshake.AnswerPanicsIff`,
  `Handshake.HandleConn`, `Relay.RelayFrameConn.Read`).
- A length of 6, which only counts delimiters, passes the check and the packet is always dropped
  (`RelayStream.NoShortPackets`).
- The fallback to raw data is not always transparent. It returns the whole wire, under every chunking, if
  the wire does not start with a frame the decoder accepts, and never the whole wire if it starts with one
  that the keyed check passes too (`Handshake.HandleConn`, with a failing wire in
  `Handshake.FallbackLosesFrame`). On the remaining wires, which start with a frame whose header mac alone
  is wrong, the chunking decides: `MixStream.DisputedByChunking` says at which cuts, and
  `MixStream.WrongHeaderMacDisputed` gives such wires.
- A balancer item added with weight 0 has weight 0 after every success. Then only draw 0 picks it, and only
  if it is visited first (`Balance.ZeroWeightPickedIff`); being picked lifts it to 1 again
  (`Balance.SuccessNeedsPositiveBase`). A success does not reset the failure count: the next failure marks
  the item if and only if that count plus one reaches the limit (`Balance.SuccessForgetsNoFailure`).
- A failed update can raise a balancer item's weight: it does if and only if the weight is at most a tenth of
  the base (`Balance.FailureCosts`, with three failures that end in a rise in `Balance.FailureCanRaise`).
- The SOCKS5 client waits for ten bytes of reply, although the reply to a name of one or two bytes is
  shorter: then it waits for payload (`Socks.EchoedRequest`). A name of more than 255 bytes gets a length
  byte that does not match it (`Socks.RequestReadBackIff`).
- The binary search would not terminate on an inverted range around the address
  (`Host.ProbeStuckIffInverted`); CIDR lines never make one (`Cidr.BlockIsPrefixMatch`).

One thing that looks wrong does no harm: `MixLayerAdaptor.Read` tests another variable after `InitRead`
(wcf/src/mix_layer/crypt_layer.go:88-92), but for every codec that keeps its contract the error it drops
cannot occur (`MixStream.InitReadCannotFail`).

## Model

| member | source | states |
|---|---|---|
| Tunnel.Session | wcf/src/net_utils/net_utils.go:58-122 | Both directions at once over two three-layer stacks, for any script of sends of at most 40927 bytes, partial deliveries by the network and reads into buffers of any size at either end: each end takes all the script sends unless a write fails on its raw connection, the bytes delivered at the other are a prefix of that, and once everything was carried and nothing is pending they are all of it |
| Tunnel.Conversation | wcf/src/net_utils/net_utils.go:58-122 | A session played to its end: if no write failed on a raw connection and no read timed out with bytes at hand, everything the script asked to be sent, in either direction, has been delivered at the other end |
| Tunnel.Finish | wcf/src/net_utils/net_utils.go:74-92 | Reading until an error after the rest of the wire was carried terminates, and delivers everything sent unless a send failed or the network stalled |
| Tunnel.Open | wcf/src/mix_layer/crypt_layer.go:137-151 | Two fresh stacks, each padding what the other skips, satisfy the run invariant in both directions with nothing sent and nothing delivered |
| Tunnel.SendOn | wcf/src/net_utils/net_utils.go:74-79 | Writing on a stack keeps the run invariant of the direction and of the opposite one, whose reading half is on the same stack, and fails only by a failed write below |
| Tunnel.CarryOn | wcf/src/net_utils/net_utils.go:58-122 | Bytes arriving in one direction keep the run invariant of both, and as many are carried as asked for and there |
| Tunnel.ReceiveOn | wcf/src/net_utils/net_utils.go:74-79 | Reading on a stack keeps the run invariant of the direction and of the opposite one, whose writing half is on the same stack, with the progress and the errors of the read |
| Tunnel.Link.Delivered | wcf/src/wcf/relay/wrap_frame_conn.go:32-76 | In every state that satisfies the run invariant: what was delivered is a prefix of what was sent, and all of it once nothing failed, everything was carried and nothing is pending |
| Tunnel.TunnelDelivers | wcf/src/wcf/relay/wrap_frame_conn.go:32-76 | For every codec that keeps its contract, every pad, every sending history and every prefix of its wire: undoing the three layers meets no error in any of them and yields exactly the data of the first k packets, and of all of them when the wire is whole |
| Tunnel.Accounts | wcf/src/mix_layer/crypt_layer.go:57-108 | In mid-run: whatever the layers have consumed so far and whatever part of the wire has arrived, no layer is facing an error, and what was made of it together with what is still due is a prefix of the data sent, all of it when everything arrived |
| Tunnel.TracksAccounts | wcf/src/wcf/relay/wrap_frame_conn.go:11-64 | The fields of a running receiving stack are such books: what it has given is a prefix of the data sent, and with nothing pending on a whole wire it is all of it |
| Tunnel.ReaderBooks | wcf/src/mix_layer/crypt_layer.go:57-108 | Of a running adaptor, over whatever part of an honest wire has arrived and after any reads and timeouts: it has consumed the frames of the first j messages, what it handed out followed by `decbuf` is those messages, `rbuf` and what is below are what arrived of the remaining frames, `initRead` is true exactly when j > 0, and the decoder is in step with the encoder after j messages |
| Tunnel.ReadSome | wcf/src/wcf/relay/wrap_frame_conn.go:32-64 | A read on a stack that faces no error moves its books by the data returned; without an error it makes progress, its errors are just those of the raw connection, and unless that stalled nothing is pending |
| Tunnel.MoreSent | wcf/src/mix_layer/crypt_layer.go:111-135 | A longer sending history extends the wire by exactly the frames the writer emits from the state the earlier history left it in |
| Tunnel.CodecsQualify | wcf/src/mix_layer/crypt_layer.go:137-151 | The none, XOR and padded-block codecs meet the requirements the end-to-end theorems place on a codec, for every 20-byte key and IV of their length |
| Tunnel.Link.constructor | wcf/src/mix_layer/crypt_layer.go:137-151 | Between any two stacks on which nothing was sent or read in this direction the run invariant holds, with nothing sent and nothing delivered |
| Tunnel.Link.Send | wcf/src/wcf/relay/wrap_frame_conn.go:66-76 | Keeps the run invariant; the data handed over is appended to what was sent; the send fails exactly when a write below fails; the reading half of the stack is not disturbed |
| Tunnel.Link.Carry | wcf/src/net_utils/net_utils.go:202-213 | Any number of wire bytes may be moved to the receiver at any point; the run invariant stays, and what was due before stays due and comes first |
| Tunnel.Link.Receive | wcf/src/wcf/relay/wrap_frame_conn.go:32-64 | A read keeps the run invariant, extends what was delivered within what was sent, makes progress unless it fails, fails just as the raw connection does, and unless that stalled leaves nothing undelivered on a fully carried wire |
| Relay.RelayFrameConn.WrapRelayFrameConn | wcf/src/wcf/relay/wrap_frame_conn.go:19-30 | The bytes left over by the handshake come before those still below: what will be delivered is the unpacking of the two in that order |
| Relay.RelayFrameConn.Read | wcf/src/wcf/relay/wrap_frame_conn.go:32-64 | On any stream and chunking: the bytes returned are the next ones due, nothing is lost or repeated across errors, a result of 0 bytes without an error has consumed a packet; it panics only where a packet of length zero is next, and there on a clean wire below ends in nothing but the panic or a timeout; on a clean stream the only errors are timeouts and an end of the wire at which everything was delivered; every timeout and end of the wire is one of the raw connection, and on a clean stream comes without a stall only when nothing is due; with nothing unpacked the packet at the head of the stream decides: its data if it checks, a protocol error if not, and nothing but a stall hides either on a clean wire below |
| Relay.RelayFrameConn.Fill | wcf/src/wcf/relay/wrap_frame_conn.go:40-53 | Ends because a waiting buffer is shorter than the largest packet, with an opinion of the check on the bytes held or with an error of the raw connection, which loses none of them |
| Relay.RelayFrameConn.TakePacket | wcf/src/wcf/relay/wrap_frame_conn.go:54-62 | A packet leaves the buffer for good, its data becomes due, and a packet that does not check costs only itself; an error exactly if it does not check |
| Relay.RelayFrameConn.Write | wcf/src/wcf/relay/wrap_frame_conn.go:66-76 | Emits the frames of exactly one packet, holding the argument or its first four fifths, and reports that many bytes; the reading half is not disturbed; unless the encoder refuses it fails exactly by a failed write below |
| Relay.RelayFrameConn.SendSpecLen | wcf/src/net_utils/net_utils.go:202-213 | Over this connection: success means packets whose data concatenate to the buffer are on the wire, failure leaves a prefix of such packets; for buffers of at most 40927 bytes every packet fits the receiver; unless the encoder refuses it fails exactly by a failed write below |
| RelayStream.TakeStep | wcf/src/wcf/relay/wrap_frame_conn.go:40-62 | What the reader does with the packet it holds is what the unpacking of the whole stream does first, whatever is still below |
| RelayStream.ConsumeOneMore | wcf/src/wcf/relay/wrap_frame_conn.go:54-62 | Consumed packets and their data stay in correspondence as one more is consumed |
| RelayStream.NoShortPackets | wcf/src/wcf/relay/relay_utils.go:13-31 | A packet that passes the check is at least 6 bytes long, and one of exactly 6 is always dropped |
| RelayStream.DamagedPacketDropped | wcf/src/wcf/relay/wrap_frame_conn.go:54-62 | A packet whose checksum is not that of its data, at the head of any stream: the reader drops all of it with an error, delivers nothing of it and goes on behind it |
| RelayStream.CutFits | wcf/src/wcf/relay/wrap_frame_conn.go:66-70 | Arguments of at most 40927 bytes, shortened ones included, always make a packet within 32768 bytes |
| RelayStream.LargeWriteRefused | wcf/src/wcf/relay/wrap_frame_conn.go:66-70 | From 40944 bytes on the argument is cut to four fifths of its own length and the packet is refused by every receiver, as long as its size fits the length field |
| RelayStream.CutIs | wcf/src/wcf/relay/wrap_frame_conn.go:66-70 | Up to 26214 bytes an argument is left alone, and a longer one is cut to four fifths of its length, rounded down |
| RelayStream.HonestPrefix | wcf/src/wcf/relay/wrap_frame_conn.go:32-64 | For every sending history and every prefix of its packet stream: no error, and exactly the data of the first j packets, of all of them when the stream is whole |
| RelayStream.HonestWait | wcf/src/wcf/relay/relay_utils.go:13-31 | A strict prefix of a packet makes the reader wait and yields nothing |
| RelayStream.MessagesCarryPackets | wcf/src/mix_layer/crypt_layer.go:111-114 | The pieces the mix layer cuts packets into concatenate to the packet stream, and each is within its limit |
| Packet.BuildDataPacket | wcf/src/wcf/relay/relay_utils.go:71-83 | The buffer filled in place is the packet specified by `Build` |
| Packet.UnmarshalMarshal | wcf/src/wcf/relay/msg/msg.proto:39-43 | Parsing inverts serialising for every packet within the widths of its fields |
| Packet.VarintIs | wcf/src/wcf/relay/msg/msg.proto:39-43 | A varint is the base-128 digits of its value, lowest first, with the high bit set on all bytes but the last |
| Packet.SkipsUnknown | wcf/src/wcf/relay/msg/msg.proto:39-43 | A field of another number or wire type is skipped with exactly the bytes it takes |
| Packet.LastFieldWins | wcf/src/wcf/relay/msg/msg.proto:39-43 | Of a field that comes twice the second counts |
| Packet.ReadBack | wcf/src/wcf/relay/msg/msg.proto:39-43 | Every value below 2^64 written as a varint reads back, with its length, whatever follows it |
| Packet.PacketFields | wcf/src/wcf/relay/relay_utils.go:33-60 | The length, the delimiters and the body of a packet are where the check looks for them, whatever follows it |
| Packet.PacketOverhead | wcf/src/wcf/relay/relay_utils.go:71-83 | A packet is between 12 and 27 bytes longer than its data, for data below 2^21 bytes |
| Packet.PacketAcceptedIff | wcf/src/wcf/relay/relay_utils.go:13-31 | A receiver with a given limit accepts a packet, with any bytes after it, exactly when it fits the limit |
| Packet.GetDataOfBuild | wcf/src/wcf/relay/relay_utils.go:38-60 | An accepted packet gives back the data it was built from or nothing, and gives it back exactly while it is not older than the limit, in 64-bit arithmetic |
| Packet.DataIff | wcf/src/wcf/relay/relay_utils.go:38-60 | Of a whole envelope around any marshalled packet, honest or damaged, data comes exactly if the checksum it carries is the CRC of the data and it is not too old, and then exactly that data |
| Packet.DamagedYieldsNothing | wcf/src/wcf/relay/relay_utils.go:49-52 | A packet of any age with a wrong checksum passes the envelope check, whatever follows it, and yields nothing |
| Packet.AcceptsIff | wcf/src/wcf/relay/relay_utils.go:13-31 | The check accepts n bytes exactly if more than 6 are held, the first 4 say n in network order, n is at least 6, within the limit and there, and both delimiters are in place |
| Packet.RefusesIff | wcf/src/wcf/relay/relay_utils.go:13-31 | It refuses exactly a length beyond the limit, a wrong start delimiter, or a wrong end delimiter of a packet that is there |
| Packet.CheckIsStable | wcf/src/wcf/relay/relay_utils.go:13-31 | A check result on a part of the stream, once there is one, is the result on all of it |
| Packet.WaitingIsShort | wcf/src/wcf/relay/relay_utils.go:13-31 | A buffer that waits for the rest of a packet is shorter than the largest packet |
| Packet.PanicsIffZeroLength | wcf/src/wcf/relay/relay_utils.go:13-31 | The packet check panics exactly on streams of more than 6 bytes whose length field is 0 and whose start delimiter is in place; such a stream is given |
| Packet.PanicsByPart | wcf/src/wcf/relay/relay_utils.go:13-31 | Whether a stream makes the check panic shows in the part received as soon as the check has a verdict on it |
| Packet.StrictPrefixNeedsMore | wcf/src/wcf/relay/relay_utils.go:13-31 | Every strict prefix of a fitting packet asks for more, none is an error |
| MixLayer.MixLayerAdaptor.CryptWrap | wcf/src/mix_layer/crypt_layer.go:137-151 | The writer starts with the IV unsent and the encoder initialised, the reader uninitialised with nothing consumed |
| MixLayer.MixLayerAdaptor.Read | wcf/src/mix_layer/crypt_layer.go:41-109 | On any wire and chunking: the bytes returned are the next ones due and errors of any kind cost none; no byte is lost between what was consumed and what is still undecoded, none is consumed before a first frame is accepted, that happens only where the wire starts with one, and one that both checks pass is accepted unless the network stalls; every timeout and end of the wire is one of the raw connection; on a clean wire there are no other errors, no complete frame is left in the buffer, and without a stall they come only when nothing is due; a protocol error means that the keyed check had an opinion of the bytes held, and one of their frames does not decode or they come to nothing |
| MixLayer.MixLayerAdaptor.Fill | wcf/src/mix_layer/crypt_layer.go:64-74 | Terminates because a buffer waiting for the missing bytes of a frame is shorter than the largest frame; ends when the keyed check has an opinion or with an error of the raw connection, which keeps every byte fetched |
| MixLayer.MixLayerAdaptor.Drain | wcf/src/mix_layer/crypt_layer.go:75-102 | Decodes every complete frame held: what is decoded followed by what the rest will decode to does not change, no complete frame stays behind, a first frame is accepted only where the wire starts with one, and a clean wire does not fail; it fails exactly if one of the frames held is refused or does not decode |
| MixLayer.MixLayerAdaptor.DrainHeld | wcf/src/mix_layer/crypt_layer.go:75-108 | With nothing decoded so far, the end of a read fails exactly if a frame held is refused or does not decode, or all of them come to nothing |
| MixLayer.MixLayerAdaptor.Advance | wcf/src/mix_layer/crypt_layer.go:87-101 | Accepting a frame keeps the books: consumed frames and their plaintext stay in correspondence with the decoder state |
| MixLayer.MixLayerAdaptor.ReadUndecoded | wcf/src/mix_layer/crypt_layer.go:43-50 | With decoding disabled the reader hands out first the bytes still buffered, then the connection below, none lost or repeated; its errors are those of the raw connection, and without a stall come only when nothing is left |
| MixLayer.MixLayerAdaptor.DisableDecode | wcf/src/mix_layer/crypt_layer.go:37-39 | From then on what is due is the whole undecoded remainder of the wire |
| MixLayer.MixLayerAdaptor.Write | wcf/src/mix_layer/crypt_layer.go:111-135 | Success means one frame of the first 26214 bytes at most, emitted after everything earlier, and their number is returned; it fails exactly if the encoder refuses or a write below fails, with a prefix of that on the wire; an encoder that never refuses stays so; the reading half is not disturbed |
| MixLayer.MixLayerAdaptor.SendSpecLen | wcf/src/net_utils/net_utils.go:202-213 | Over this connection: the frames of the pieces, in order and complete, or a prefix of them and an error; with an encoder that never refuses the error is exactly a failed write below |
| MixStream.TakeStep | wcf/src/mix_layer/crypt_layer.go:75-102 | What the second loop does with the frame it holds is what the decoding of the whole wire does first, whatever is still below |
| MixStream.TakeIsLocal | wcf/src/mix_layer/crypt_layer.go:75-102 | A decision taken on the bytes held is the decision on all of the wire |
| MixStream.TakesOnlyAuthentic | wcf/src/mix_layer/crypt_layer.go:75-102 | On any wire, for digests of at least 4 bytes: a frame is taken exactly if it is complete, its length more than the overhead and at most 32768, and its last 4 bytes the front of the keyed digest of all before them; then the decoder, started by the first frame's IV, runs on exactly the data; the reader gives up exactly on another length or a wrong mac |
| MixStream.CleanMeans | wcf/src/mix_layer/crypt_layer.go:64-102 | A wire without protocol errors starts with a length that fits and, under a key, the front of that field's keyed digest; a complete frame on it is taken and decodes to data, and the rest is such a wire |
| MixLayer.MixLayerAdaptor.KeyedIs | wcf/src/mix_layer/crypt_layer.go:64-74 | The check of the first loop in explicit terms: it refuses exactly a length that does not fit or, under a key, a field behind it that is not the front of its keyed digest, and passes exactly when the length it says is there |
| MixStream.DisputedByChunking | wcf/src/mix_layer/crypt_layer.go:64-82 | A first frame that the decoder accepts against the keyed check has a wrong header mac; if the first fetches stop at 8 bytes or more but short of it the reader gives up with nothing consumed, if they reach its end it is accepted |
| MixStream.WrongHeaderMacDisputed | wcf/src/mix_layer/crypt_layer_utils.go:63-111 | Every frame with a wrong header mac under a right trailing mac starts such a wire, whatever follows it |
| MixStream.KeyedOpening | wcf/src/mix_layer/crypt_layer.go:64-82 | A first frame that passes the keyed check and the decoder is held when fetching stops, and then taken |
| MixStream.InitReadCannotFail | wcf/src/mix_layer/crypt_layer.go:87-95 | For a codec that keeps its contract the initialisation whose error is not looked at always succeeds, and pairs the decoder with the encoder |
| MixStream.CleanHeadNotBad | wcf/src/mix_layer/crypt_layer.go:64-74 | On a wire without protocol errors the keyed check of the first loop never fails on any part of it |
| MixStream.DeframeMonotone | wcf/src/mix_layer/crypt_layer.go:75-108 | On any wire, honest or not, more bytes only add plaintext at the end |
| MixStream.FeedThenDeframe | wcf/src/mix_layer/crypt_layer.go:57-108 | Decoding splits at every frame boundary: consumed frames first, then the rest from the state they left |
| MixStream.FrameCrosses | wcf/src/mix_layer/crypt_layer.go:111-134 | A frame written for 1 to 26214 bytes fits the peer's limit, passes both its checks whatever follows, delivers those bytes, and leaves writer and reader in step |
| MixStream.FramePrefixWaits | wcf/src/mix_layer/crypt_layer_utils.go:63-92 | A strict prefix of an honest frame makes the reader wait, without an error |
| MixStream.HonestPrefix | wcf/src/mix_layer/crypt_layer.go:57-108 | For every message history and every prefix of its wire: no protocol error, and the plaintext is exactly the first j messages, of all of them when the wire is whole |
| MixStream.HonestFeed | wcf/src/mix_layer/crypt_layer.go:57-108 | What the reader has consumed of an honest wire is the frames of the first j messages, its plaintext is those messages, its decoder is in step with the encoder after them, and it is initialised exactly when j > 0 |
| MixStream.SplitLosesNothing | wcf/src/mix_layer/crypt_layer.go:111-114 | The pieces a buffer is cut into concatenate to the buffer |
| MixStream.SplitSizes | wcf/src/mix_layer/crypt_layer.go:111-114 | The pieces are of exactly 26214 bytes but for the last |
| MixStream.EmitIs | wcf/src/mix_layer/crypt_layer.go:111-135 | With encoding off a buffer goes out as it is; with it on a buffer of at most 26214 bytes goes out as one frame of its encoding with the IV held, which is then spent |
| MixStream.InStepNeverRefuses | wcf/src/mix_layer/crypt_layer.go:120-123 | The encoder of a codec that keeps its contract refuses no message of any history |
| MixStream.DisputedOutcome | wcf/src/mix_layer/crypt_layer.go:64-82 | Of a reader that has stopped fetching on a wire whose first frame only the decoder passes: it accepts the frame exactly if it holds all of it, and otherwise holds at least 8 bytes |
| MixStream.FrameStreamAppend | wcf/src/mix_layer/crypt_layer.go:120-134 | The wire of two histories is the wire of the first followed by the wire of the second from the state the first leaves |
| Frame.EncodeHeadFrame | wcf/src/mix_layer/crypt_layer_utils.go:50-61 | The buffer filled field by field is the frame specified by `Encode`, whose fields and macs `Frame.FrameIs` gives |
| Frame.FrameIs | wcf/src/mix_layer/crypt_layer_utils.go:50-61 | For digests of at least 4 bytes a frame is its length in network order, the first 4 bytes of that field's digest under the key, the IV, the data, and the first 4 bytes of the digest under the key of all before them (section 5 of RFC 2104) |
| Frame.MacIs | wcf/src/mix_layer/crypt_layer_utils.go:37-47 | A mac is the front of the digest of its data under the key, and a short digest is filled up with copies of the missing length |
| Frame.ChecksIff | wcf/src/mix_layer/crypt_layer_utils.go:63-92 | The check accepts n bytes exactly if they are there, the first 4 say n in network order, n is more than the overhead and within the limit, and with a key the next 4 are the front of their keyed digest |
| Frame.RefusesIff | wcf/src/mix_layer/crypt_layer_utils.go:63-92 | It refuses exactly if the first 4 bytes say another length or, with a key, the next 4 are there and wrong |
| Frame.DecodeHeadFrame | wcf/src/mix_layer/crypt_layer_utils.go:99-111 | Writes the IV to the caller's buffer and returns the data of the specified decoding, or fails and leaves the buffer alone |
| Frame.DecodesIff | wcf/src/mix_layer/crypt_layer_utils.go:99-111 | The decoder accepts exactly a whole frame of at most 32768 bytes whose last 4 are the front of the digest under the key of all before them, and returns what lies between as IV and data |
| Frame.FrameAcceptedIff | wcf/src/mix_layer/crypt_layer_utils.go:50-92 | The keyed check accepts a frame, with any bytes after it, exactly when the frame carries data and its total is at most 32768 |
| Frame.CheckThenDecode | wcf/src/mix_layer/crypt_layer_utils.go:50-111 | Check, then decode what it delimits: exactly the IV and data that were encoded, whatever follows the frame |
| Frame.AcceptedReencodes | wcf/src/mix_layer/crypt_layer_utils.go:50-111 | A frame accepted by the keyed check and the decoder is, byte for byte, the encoding of what they return |
| Frame.ReencodesIffHeaderMac | wcf/src/mix_layer/crypt_layer_utils.go:99-111 | A frame the decoder alone accepts re-encodes to the same bytes exactly when the mac of its length field is right |
| Frame.HeaderMacNotRechecked | wcf/src/mix_layer/crypt_layer_utils.go:94-111 | A frame with a wrong header mac under a right trailing mac: refused by the keyed check, accepted by the decoder |
| Frame.CheckIsStable | wcf/src/mix_layer/crypt_layer_utils.go:63-92 | Once a check has a result, more bytes do not change it, and bytes not refused have no refused prefix |
| Frame.WaitingIsShort | wcf/src/mix_layer/crypt_layer_utils.go:63-92 | A buffer that waits for the rest of a frame is shorter than the largest frame |
| Frame.StrictPrefixNeedsMore | wcf/src/mix_layer/crypt_layer_utils.go:63-96 | Every strict prefix of a frame asks for more under both checks, none is an error |
| Codec.NonePaired | wcf/src/mix_layer/none/none.go:17-47 | The none codec meets the codec contract: encoder and decoder start paired for every key and IV, and every non-empty message crosses and leaves them paired |
| XorCodec.Xor8Is | wcf/src/mix_layer/xor/xor_layer.go:56 | Bit by bit the exclusive or of the two bytes; 0 leaves the key byte as it is |
| XorCodec.ByteIs | wcf/src/mix_layer/xor/xor_layer.go:54-58 | Byte i is combined with the key byte at the position plus i, the key repeating, so that a message of zeros shows the key |
| XorCodec.MessageIs | wcf/src/mix_layer/xor/xor_layer.go:54-75 | Each message of a history is combined from the position the messages before it left |
| Bits.BitsAre | wcf/src/mix_layer/xor/xor_layer.go:56 | Bit i of an exclusive or, an or and an and is that of the operands combined |
| XorCodec.XorInto | wcf/src/mix_layer/xor/xor_layer.go:54-63 | The loop fills the output with the input XORed against the repeating key from the given position, and returns the next position with its reset after 100 |
| XorCodec.Xor.Encode | wcf/src/mix_layer/xor/xor_layer.go:65-69 | Encodes from the write position and advances it, the read side unchanged |
| XorCodec.Xor.Decode | wcf/src/mix_layer/xor/xor_layer.go:71-75 | Decodes from the read position and advances it, the write side unchanged |
| XorCodec.XorUndoes | wcf/src/mix_layer/xor/xor_layer.go:54-63 | From the same position, XOR with the same key gives back the message |
| XorCodec.XorStaysInStep | wcf/src/mix_layer/xor/xor_layer.go:54-75 | For every sequence of messages: fed the encoded messages one by one the decoder reproduces each, both positions agree before every message, and they never leave 0..100 |
| XorCodec.XorNeedsBoundaries | wcf/src/mix_layer/xor/xor_layer.go:54-63 | Merging two encoded messages before decoding is harmless exactly when the first did not reset the position or the key happens to repeat there |
| XorCodec.XorPaired | wcf/src/mix_layer/xor/xor_layer.go:15-75 | The XOR codec meets the codec contract, for any digest that is never empty |
| BlockCodec.PKCS5Padding | wcf/src/mix_layer/crypt_layer_utils.go:13-20 | The buffer filled in place is the padded message |
| BlockCodec.UnpadPad | wcf/src/mix_layer/crypt_layer_utils.go:13-29 | Padding fills whole blocks, adds between 1 and a block, and unpadding undoes it for every message but the empty one (section 6.3 of RFC 5652) |
| BlockCodec.CiphertextIs | wcf/src/mix_layer/blowfish/blowfish.go:59-66 | Each block of a ciphertext is the encryption under the key of the block of the padded message at the same place |
| BlockCodec.DecodesIff | wcf/src/mix_layer/blowfish/blowfish.go:68-81 | A ciphertext decodes exactly if it is whole blocks, not empty, and decrypts to more bytes than its last one says, and then to all but that many |
| BlockCodec.BlockLoop | wcf/src/mix_layer/blowfish/blowfish.go:59-75 | The loop writing the output in place applies the block function to every block, in order |
| BlockCodec.MapBlocksUndone | wcf/src/mix_layer/blowfish/blowfish.go:59-75 | Applying a block permutation and then its inverse, block by block, gives back any input of whole blocks |
| BlockCodec.DecodeUndoesEncode | wcf/src/mix_layer/blowfish/blowfish.go:59-81 | Decode after encode is the identity on every non-empty message, for every block permutation of 1 to 255 bytes; the growth is between 1 and a block |
| BlockCodec.EncodeUndoesDecode | wcf/src/mix_layer/blowfish/blowfish.go:59-81 | A ciphertext that decodes is the encoding of its message exactly when the last byte p of what it decrypts to is between 1 and the block size and the last p bytes all equal p |
| BlockCodec.PadOfUnpadIff | wcf/src/mix_layer/crypt_layer_utils.go:13-29 | Whole blocks that unpad are the padding of the result exactly when their last byte p is within 1 and the block size and repeated p times at the end |
| BlockCodec.BadPaddingAccepted | wcf/src/mix_layer/blowfish/blowfish.go:68-81 | For every permutation the encryption of a block of zeros, and for blocks of at least 3 bytes that of a block ending in 0, 2, decodes to a message whose encoding is another ciphertext |
| BlockCodec.BlowFish.InitWrite | wcf/src/mix_layer/blowfish/blowfish.go:37-44 | Succeeds exactly for a key and IV of 1 to 56 bytes together, and a failure leaves the old encoder |
| BlockCodec.BlowFish.Encode | wcf/src/mix_layer/blowfish/blowfish.go:59-66 | Encrypts the padded input under the write key |
| BlockCodec.BlowFish.Decode | wcf/src/mix_layer/blowfish/blowfish.go:68-81 | Refuses partial blocks and impossible padding, and otherwise returns the unpadded plaintext |
| BlockCodec.BlowFishPaired | wcf/src/mix_layer/blowfish/blowfish.go:17-81 | The padded block codec meets the codec contract for any block permutation of at most 16 bytes |
| Exchange.RawConn.SendSpecLen | wcf/src/net_utils/net_utils.go:202-213 | Everything is sent, in order, unless a write fails, and then some prefix |
| Exchange.ExchangeConn.constructor | wcf/src/exchange/exchange_conn.go:28-42 | What will be delivered is all that is held or will arrive without its first `skip` bytes |
| Exchange.ExchangeConn.PadAndCount | wcf/src/transport/trans_pad/trans_pad.go:60-71 | Drops as many bytes as are still due to be dropped and counts them off |
| Exchange.ExchangeConn.Read | wcf/src/exchange/exchange_conn.go:44-68 | Under any chunking the bytes returned are the next ones due; 0 bytes never come without an error, an error is one of the raw connection and costs nothing, and without a stall it comes only when nothing is due; the loop ends because every read it swallows is counted off the pad |
| Exchange.ExchangeConn.Write | wcf/src/exchange/exchange_conn.go:70-85 | The held-back pad goes out once and before the first data; success means all of both, and failure, exactly by a failed write below, a prefix |
| Exchange.FilterStep | wcf/src/transport/trans_pad/trans_pad.go:53-71 | The captured counter makes the filter drop, across any sequence of reads, exactly the leading bytes of the whole stream |
| Exchange.PadIsTransparent | wcf/src/transport/trans_pad/trans_pad.go:79-105 | A receiver that skips as many bytes as its peer pads delivers the data written, and of every part of the wire the corresponding part |
| Handshake.ReadPacket | wcf/src/wcf/relay/relay_acceptor.go:136-152 | Terminates within the 1024-byte buffer, accounts for every byte read, ends with a verdict or, while the packet is unfinished, with an error, whose timeouts and ends are those of the raw connection; on a clean wire there are no others, without a stall they come only when nothing is left, and the connection stays clean |
| Handshake.SendPacket | wcf/src/wcf/relay/relay_utils.go:71-83 | One packet goes out through the mix layer, or a prefix of its frames and an error, which unless the encoder refuses is exactly a failed write below; what is due to the reader and its state do not change |
| Handshake.DoHandshake | wcf/src/wcf/relay/relay_acceptor.go:125-198 | But for a read error the verdict on the stream decides, not its chunking: an admitted client gets a valid packet connection positioned exactly after its request and was sent AUTH_OK, a refused one the code of its refusal, and a panic of the packet check is told apart; a network failure is a timeout of the raw connection and a failed send a failed write there, unless the encoder refuses; on a clean wire a verdict the stream allows is reached unless the network stalls, and the connection stays fit for use |
| Handshake.Respond | wcf/src/wcf/relay/relay_acceptor.go:167-197 | The answer to a verdict goes out, or part of it by a failed write below, and an admitted client's connection starts with the spare bytes; nothing changes for the reader |
| Handshake.ReceiveRequest | wcf/src/wcf/relay/relay_acceptor.go:136-166 | The verdict on the bytes read is that on the stream, and the spare bytes followed by what is below are exactly what follows the request; timeouts are those of the raw connection, and on a clean wire only a stall can prevent a verdict the stream allows |
| Handshake.JudgeByPart | wcf/src/wcf/relay/relay_utils.go:13-60 | A verdict reached on a part of the stream is the verdict on all of it |
| Handshake.HandleConn | wcf/src/wcf/relay/relay_acceptor.go:222-233 | Unless the network fails or the protocol does, the outcome is the one the stream calls for; an admitted client gets a valid connection that reads exactly the data after its request, clean if wire and stream are. After a failed protocol both directions are raw and what is read is the original wire without the frames accepted: all of it if the wire does not start with a frame the decoder accepts, never all of it if it starts with one that the keyed check passes too. Timeouts are those of the raw connection, and on a clean wire only a stall prevents a verdict the stream allows |
| Handshake.FallbackLosesFrame | wcf/src/wcf/relay/relay_acceptor.go:137-146 | An honest frame of a message of 1 to 6 bytes followed by four zero bytes opens for certain, allows no verdict and ends in a protocol error: a wire on which the fallback loses that frame |
| Handshake.JudgePanicsIff | wcf/src/wcf/relay/relay_acceptor.go:148-166 | The acceptor panics exactly on decoded streams that start with a packet of length zero |
| Handshake.RequestIsJudged | wcf/src/wcf/relay/relay_acceptor.go:148-178 | A request packet, whatever follows it, is ruled on by user, password, name and port exactly when it is at most 384 bytes long and not too old, and is malformed otherwise |
| Handshake.RulingIs | wcf/src/wcf/relay/relay_acceptor.go:148-178 | Every verdict with its exact condition: a request is malformed if larger than 384 bytes, too old or not parsed, refused with 10000 for its user or password, else with 10001 for an empty name or port 0, and else admitted with its own contents |
| Handshake.DamagedIsRefused | wcf/src/wcf/relay/relay_utils.go:49-52 | A packet with a wrong checksum is malformed to the acceptor and no answer to the client, whatever follows it |
| Handshake.ReplyIsAnswer | wcf/src/wcf/relay/relay_connector.go:57-83 | The acceptor's positive reply is, whatever follows it, the answer the client accepts, with its length and token |
| Handshake.RefusalIsNoAnswer | wcf/src/wcf/relay/relay_connector.go:69-76 | A reply with any code but 0 is no positive answer to a client that reads back what the acceptor builds, whatever token it carries and whatever follows it |
| Handshake.AuthRspReadBack | wcf/src/wcf/relay/msg/msg.proto:34-37 | The two fields of the reply are read back in their places by the message's own parser, for every result from 0 and every 32-bit token |
| Handshake.ReplyUnderstood | wcf/src/wcf/relay/relay_connector.go:69-83 | As the client's own parser reads it, a reply is a positive answer with its length and token exactly if its code is 0 |
| Handshake.BothSidesAgree | wcf/src/wcf/relay/relay_acceptor.go:148-197 | On any stream the acceptor answers: its answer, sent through the mix layer under any codec, is read by the client as an admission with the token exactly if the acceptor admitted, and as no answer if it refused |
| Handshake.OpeningDelivers | wcf/src/wcf/relay/relay_acceptor.go:136-197 | A client's acceptable request of at most 384 bytes and any history of packets, sent through the mix layer: of every prefix of the wire the acceptor has not seen all of the request or admits it with its exact length, and what is due after it is the data of the first k packets, of all of them when the wire is whole |
| Handshake.ReplyDelivers | wcf/src/wcf/relay/relay_connector.go:46-83 | The acceptor's positive reply and any history of packets, sent through the mix layer: of every prefix of the wire the client has not seen all of the reply or takes it with its exact length and token, and what is due after it is the data of the first k packets, of all of them when the wire is whole |
| Handshake.FirstThenData | wcf/src/mix_layer/crypt_layer.go:57-108 | A first packet and any history after it, sent through the mix layer: every prefix of the wire decodes without error to a part of the first packet, or to it and a clean stream with the data of the first k others |
| Handshake.AnswerByPart | wcf/src/wcf/relay/relay_utils.go:13-60 | The answer found in the bytes read is the answer in the stream |
| Handshake.AnswerPanicsIff | wcf/src/wcf/relay/relay_connector.go:57-67 | The client panics exactly on decoded streams that start with a packet of length zero |
| Handshake.ReceiveAnswer | wcf/src/wcf/relay/relay_connector.go:46-83 | The answer is that of the stream, and the spare bytes followed by what is below are exactly what follows it; timeouts are those of the raw connection, on a clean wire only a stall can prevent an answer the stream holds, and the connection stays clean |
| Handshake.DoAuth | wcf/src/wcf/relay/relay_connector.go:40-84 | The request goes out as one packet unless a write below fails or the encoder refuses; but for a read error of the raw connection the answer in the stream decides, and on a clean wire only a stall hides one; the connection returned is valid, clean if wire and stream are, and reads exactly what follows a positive answer; a panic of the packet check is told apart |
| Pipe.DataCopy | wcf/src/net_utils/net_utils.go:131-142 | The bytes read leave the source once; they are at the destination, in order, unless a write failed, and then a prefix of them is; without a read error bytes were moved or a packet consumed; read errors are the raw connection's or the stream's |
| Pipe.PipeDirection | wcf/src/net_utils/net_utils.go:68-93 | Through any number of timeouts the destination receives exactly the bytes taken from the tunnel, in order; the loop ends before its last round only by an error that is no timeout or a timeout when the context is done; every copy that does not fail makes progress, so that a clean tunnel is copied to its end in at most as many rounds as bytes are left, unless the network stalls or a write fails |
| Cidr.BlockIsPrefixMatch | wcf/src/net_utils/net_utils.go:17-31 | The range of a CIDR line contains its address, and contains another exactly when the two share the prefix bits (section 3.1 of RFC 4632) |
| Cidr.RangeIs | wcf/src/net_utils/net_utils.go:17-31 | The range is the multiple of its size at or below the address up to the last address before the next |
| Cidr.Laminar | wcf/src/net_utils/net_utils.go:22-30 | Any two ranges of CIDR lines are nested or disjoint |
| Bits.XorCancel | wcf/src/mix_layer/xor/xor_layer.go:56 | XOR with one value and then another restores the input exactly when the two are equal |
| Bits.BlockIsPrefix | wcf/src/net_utils/net_utils.go:26-30 | Clearing and setting the low bits of an address delimits exactly the addresses that agree with it above them |
| RangeList.MergeFromKeeps | wcf/src/check/host.go:74-86 | The merge loop keeps the covered addresses and yields disjoint increasing ranges |
| RangeList.MergeKeeps | wcf/src/check/host.go:69-88 | For any ordered ranges: the merged list covers exactly the same addresses, by strictly increasing disjoint ranges |
| RangeList.MergeKeepsTexts | wcf/src/check/host.go:69-88 | The texts of merged lines stay, in order, none lost or repeated |
| RangeList.ExtensionOnlyAtEqualStarts | wcf/src/check/host.go:78-82 | On CIDR blocks the end is extended only by a block with the same start, and the result is one of the two blocks |
| RangeList.MergeIsMaximalBlocks | wcf/src/check/host.go:69-88 | On CIDR blocks the output is exactly the maximal input blocks: each output is an input no other properly contains, and each such input is an output |
| Host.Sort | wcf/src/check/host.go:46-59 | The list becomes a permutation of itself sorted by `Less`, the objects unchanged |
| Host.SortAndMerge | wcf/src/check/host.go:69-88 | In place on the range objects: the pointers returned are pointers of the list, and their values are the merge of its sorted values |
| Host.CheckIPInRangeList | wcf/src/check/host.go:208-226 | Terminates on ordered ranges; a hit is real, and on disjoint increasing ranges the answer is exactly membership |
| Host.ProbeStuckIffInverted | wcf/src/check/host.go:214-224 | A missing probe fails to narrow the search exactly when its range is inverted around the address |
| Host.RangesMatchLines | wcf/src/check/host.go:145-150 | The ranges collected for a rule are non-empty CIDR blocks, and hold an address exactly when some line of that rule shares its prefix with it |
| Host.IndexIsLinearScan | wcf/src/check/host.go:69-88 | Sorting and merging a rule's ranges turns membership in the result into the linear scan of its lines |
| Host.SuffixStep | wcf/src/check/host.go:238-248 | The suffixes of a name are the name and the suffixes of what follows its first dot |
| Host.LookupName | wcf/src/check/host.go:238-248 | Terminates, and returns the rule of the longest suffix of the name that is in the table, or nothing exactly when none is |
| Host.ReadLines | wcf/src/check/host.go:104-154 | Names map to the rule of their last line, and each rule's ranges are its lines in file order, every range object belonging to one rule |
| Host.LastLineWins | wcf/src/check/host.go:104-154 | The rule of a name is that of its last line in the file |
| Host.Rule.Load | wcf/src/check/host.go:94-173 | After loading, the tables answer as the lines of the file do, for every rule and address |
| Host.Rule.CheckAndGetRuleOptional | wcf/src/check/host.go:228-279 | Against the lines: a name gets the rule of its longest listed suffix, an IPv4 address not listed itself a rule with a matching line, and the default exactly when there is none, whatever the map order |
| Host.Rule.CheckV4 | wcf/src/check/host.go:263-268 | In any order of the rules: a rule with a matching line, or the default when no line of any rule matches |
| Balance.StepsKeepSound | wcf/src/lb/loadbalance.go:30-140 | Every operation keeps a weight between 1 and its base, for items added with a weight of at least 1 |
| Balance.FailureCosts | wcf/src/lb/loadbalance.go:124-137 | A failure counts once, halves the weight and takes off a tenth of the base, or leaves a tenth plus 1 where nothing would remain; so it lowers the weight exactly from above a tenth of the base plus 1 and raises it exactly from a tenth or less; it marks exactly from the limit on, and a marked item and all others stay as they are |
| Balance.FailureCanRaise | wcf/src/lb/loadbalance.go:133-136 | An item added with weight 100 has weight 40, 10 and then 11 after one, two and three failures |
| Balance.FailureLowers | wcf/src/lb/loadbalance.go:133-136 | From above half of a base of at least 2 a failure of an item in service costs weight |
| Balance.SuccessGains | wcf/src/lb/loadbalance.go:107-123 | A success takes the item into service, gains a fifth of the base plus 1 if it was marked or at half its base at most and else 1, never beyond the base, and so raises every weight below it; the failure count and all other items stay |
| Balance.ThreeSuccessesHeal | wcf/src/lb/loadbalance.go:107-123 | Three successes lift any item above half of its base |
| Balance.ChoiceCosts | wcf/src/lb/loadbalance.go:92-97 | Being chosen costs 1 of the weight above half of the base and above 1, and nothing else |
| Balance.ScanRecovers | wcf/src/lb/loadbalance.go:31-42 | A scan takes exactly the marked items whose time is up back into service, just above half their base and with a clean record |
| Balance.SuccessNeedsPositiveBase | wcf/src/lb/loadbalance.go:119-121 | After a success a weight is positive exactly when its base is; an item added with weight 0 then has weight 0, and being picked lifts it to 1 again |
| Balance.SuccessForgetsNoFailure | wcf/src/lb/loadbalance.go:107-132 | A success takes any item into service and leaves its failure count; the next failure marks it exactly when that count plus one reaches the limit |
| Balance.ChooseNeverPanics | wcf/src/lb/loadbalance.go:84-100 | Whatever the weights and their order, a draw below their total picks an item |
| Balance.ChooseIgnoresRest | wcf/src/lb/loadbalance.go:85-98 | The choice depends only on the items visited up to it |
| Balance.ZeroWeightPickedIff | wcf/src/lb/loadbalance.go:84-98 | Among weights none of which is negative, an item of weight 0 is picked exactly by draw 0 when it is visited first |
| Balance.DrawsMatchWeight | wcf/src/lb/loadbalance.go:84-98 | For a fixed order the number of draws that pick an item is its weight, plus one for the first and minus one for the last |
| Balance.SharesSumToTotal | wcf/src/lb/loadbalance.go:84-98 | The shares of all items are together all the draws |
| Balance.RunInvariant | wcf/src/lb/loadbalance.go:29-140 | After any sequence of additions, choices, updates and scans with weights of at least 1: every weight is between 1 and its base, and an item is marked only after at least `maxErr` failed updates since its last addition or recovery |
| Balance.MarkedByFailures | wcf/src/lb/loadbalance.go:128-132 | In every run a marked address has had at least `maxErr` failed updates since it was last added |
| Balance.GetFailsIffAllMarked | wcf/src/lb/loadbalance.go:71-83 | After any such run `Get` reports an error exactly when every item is marked |
| LoadBalance.LoadItem.Success | wcf/src/lb/loadbalance.go:108-123 | The item moves as the success step of the run model, truncating division included |
| LoadBalance.LoadItem.Failure | wcf/src/lb/loadbalance.go:124-137 | The item moves as the failure step of the run model |
| LoadBalance.Balancer.AddItem | wcf/src/lb/loadbalance.go:55-69 | Replaces or adds one item, all others untouched |
| LoadBalance.Balancer.GetItem | wcf/src/lb/loadbalance.go:71-101 | Fails exactly when the unmarked weights sum to nothing; otherwise the panic is unreachable, for any draw and any two map orders, and the item returned is unmarked and the one the draw names in the order visited |
| LoadBalance.Balancer.TotalWeight | wcf/src/lb/loadbalance.go:74-80 | The sum of the unmarked weights, in any order |
| LoadBalance.TotalInAnyOrder | wcf/src/lb/loadbalance.go:74-80 | The weights visited in any full order add up to the total drawn from |
| LoadBalance.SharesInAnyRun | wcf/src/lb/loadbalance.go:74-98 | After any run with weights of at least 1 and in any order of visit: as many draws pick an unmarked item as its current weight, one more for the first, one less for the last |
| LoadBalance.Balancer.UpdateItem | wcf/src/lb/loadbalance.go:103-140 | One address is updated as the run model says, an unknown one changes nothing |
| LoadBalance.Balancer.ScanOnce | wcf/src/lb/loadbalance.go:31-42 | Exactly the marked items whose time is up recover, in any order |
| Sessions.Limiter.TryAcqure | wcf/src/limiter/limiter.go:12-20 | A unit is taken exactly when there is one, and the number in use is reported |
| Sessions.Limiter.Release | wcf/src/limiter/limiter.go:22-29 | A unit is given back, never beyond the base |
| Sessions.ReleaseUndoesAcquire | wcf/src/limiter/limiter.go:12-29 | A release undoes an acquisition, and never exceeds the base |
| Sessions.RunKeepsInv | wcf/src/wcf/user_context.go:16-35 | In every interleaving of sessions: the lock is held by whoever is inside it, an absent context was not created meanwhile, all sessions of a user hold the one context of the map, and every limiter accounts for exactly its live sessions |
| Sessions.SessionsWithinLimit | wcf/src/wcf/wcf_server.go:146-154 | In every reachable state sessions of one user share one context, units and live sessions add up to its base, and so no user has more live sessions than a limit configured for him |
| Sessions.AdmittedIffRoom | wcf/src/wcf/wcf_server.go:150-153 | In every reachable state a session that asks is admitted exactly when its user has fewer live sessions than the base of his context |
| Sessions.LeavingReleases | wcf/src/wcf/wcf_server.go:150-154 | In every reachable state a live session that takes one more step is gone, the live sessions of its user are those before without it, all others' are unchanged, and its unit is back |
| Sessions.NextIsAdmitted | wcf/src/wcf/wcf_server.go:150-154 | A session of the same user that asks after that is admitted, whatever the load; without it, it would have been turned away exactly when all units were out |
| Sessions.NobodyIsStuck | wcf/src/wcf/user_context.go:16-28 | In every reachable state every session that has not ended gets on with its next step, or waits for the lock and whoever holds it, who is inside, gets on |
| Sessions.SevenSteps | wcf/src/wcf/user_context.go:16-28 | Whatever the schedule, no session takes more than seven steps |
| Sessions.WhenAllHaveEnded | wcf/src/wcf/wcf_server.go:154 | Once every session has ended the lock is free and every user has all units back |
| Sessions.OthersStay | wcf/src/wcf/user_context.go:16-35 | No step moves another session, takes away a context, or touches the units of another user |
| Socks.RequestReadBackIff | wcf/src/proxy/socks/socks_connector.go:56-83 | A request, whatever follows it, is parsed back to its host and port exactly when the name, if it is one, has at most 255 bytes |
| Socks.RequestIs | wcf/src/proxy/socks/socks_connector.go:56-83 | The bytes of a request for a name, an IPv4 and an IPv6 address, as section 4 of RFC 1928 lays them out |
| Socks.ParsedAddress | wcf/src/proxy/socks/socks_acceptor.go:144-168 | The type byte and the address bytes of what parses are those of the request for its host |
| Socks.ParsedRebuilds | wcf/src/proxy/socks/socks_acceptor.go:141-168 | A parsed request is, after its first three bytes, the request built from what it parsed to |
| Socks.ConnectsIff | wcf/src/proxy/socks/socks_connector.go:43-106 | The client connects exactly when the stream starts with the accepting method reply and a successful address message (sections 3 to 6 of RFC 1928), at least ten bytes having followed the method reply |
| Socks.GivesUpIff | wcf/src/proxy/socks/socks_connector.go:43-106 | It gives up exactly when the method reply is another or, ten bytes behind it being there, the code is not success or the address type unknown |
| Socks.EchoedRequest | wcf/src/proxy/socks/socks_acceptor.go:175-180 | The reply of this repository's accepting side lets the client through to what follows it, unless both together are shorter than ten bytes, which only names of less than three bytes can bring about: then the client goes on waiting |
| Socks.VerdictByPart | wcf/src/proxy/socks/socks_connector.go:131-162 | A verdict reached on a part of the stream is the verdict on all of it |
| Socks.Judge | wcf/src/proxy/socks/socks_connector.go:137-161 | One turn of the loop waits, refuses or finishes as the whole stream received so far says, although the method reply is sliced off when accepted |
| Socks.ReadReplies | wcf/src/proxy/socks/socks_connector.go:128-162 | Terminates within the 1024-byte buffer under any chunking: finishes exactly with the replies, the spare bytes followed by what is below being what follows them; a read error is one of the raw connection, and without a stall means an unfinished stream |
| Socks.HandleShake | wcf/src/proxy/socks/socks_connector.go:108-165 | Greeting and request go out together unless a write fails; the client handed over reads exactly what follows the two replies, and every other failure is the stream's or a stall of the network |
| Socks.SocksClient.Read | wcf/src/proxy/socks/socks_connector.go:26-37 | The bytes returned are the next ones due, first those left by the handshake; an error is one of the raw connection and costs none, and without a stall comes only when nothing is left |

## Left out

- Interfaces: `net.Conn` and `EnDec` are not traits here. The stack is one class over another, and a codec
  is a record of functions over an explicit state; `Codec.Paired` is what the interface promises.
- Library calls: HMAC-SHA1, CRC-32, SHA-1, the block cipher and the parser of the auth request are
  arbitrary functions; the cipher is any block permutation with its inverse. The AES, Salsa20 and ChaCha20
  wrappers are not modelled; they would be further instances of `Codec.Paired`.
- Sockets, dialing, TLS, KCP, `Close` methods, deadlines, logging, registries, configuration, file reloading,
  reporting and the redirectors.
- The HTTP proxy code, and of the SOCKS acceptor all but its request parser: their handshakes test the
  length of the buffer instead of the bytes received, so the stream theorems do not hold there.
- `CopyToWithBuffer`, which is the loop of `Pipe` without its retry, and `SmartRule`.
- Tunnel.Session: sends of more than 40927 bytes, which the peer may refuse; the copying buffers hold 32768
  (wcf/src/net_utils/net_utils.go:168). The steps of the two ends are interleaved by the script. The
  handshakes are not played in it: their contracts end where its stacks begin, with a packet connection
  that reads exactly what follows.
- Exchange.RawConn.SendSpecLen: a raw connection is its two byte queues; which bytes have arrived when a
  read looks is left open by letting any read time out or return fewer bytes than are there.
- Exchange.ExchangeConn.constructor: only the read filter `padAndCount` and no write filter, the one
  combination the repository uses outside its unit tests.
- MixLayer.MixLayerAdaptor.CryptWrap: the hashed key and the random IV are given, and the encoder's
  initialisation is required to succeed; when it fails the source returns an error and no connection.
- Packet.UnmarshalMarshal: only the three-field message; the group wire types of protobuf are refused where
  the library skips a well-formed group.
- Relay.RelayFrameConn.Write: the clock is a parameter, as in all packet building.
- Handshake.DoHandshake: the reading of the request message, the password check, the clock and the token are
  parameters. The reply message is modelled, for results from 0, as the three the acceptor sends are.
- Pipe.DataCopy: a panic of the packet reader below is passed on as a read error instead of ending the
  program.
- Pipe.PipeDirection: one goroutine, from the tunnel to a raw connection, and any finite number of rounds of
  its unbounded loop; the context is a function of the round.
- Host.Sort: stands for the library's sort; nothing but the sorted permutation is used of it.
- Host.Rule.Load: lines are already split and parsed; addresses are 32-bit numbers.
- Host.Rule.CheckAndGetRuleOptional: the parsing of the address, name resolution and the verdict of the
  IPv6 nets, which `net.IPNet` gives, are parameters; IPv4-mapped IPv6 prefixes are not modelled.
- LoadBalance.Balancer.GetItem: the random draw is any number below the total; the interval of draws that
  picks an item is given by `Balance.DrawsMatchWeight`, without a claim about their distribution.
- Sessions.RunKeepsInv: a read of the context map is one atomic step, which the source does not guarantee
  for its unlocked read; an account's settings do not change during a run, and `Reset` is called only when a
  context is built.
- Socks.HandleShake: the address is already split and parsed.
