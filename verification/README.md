# A verified model of the transport core

This project models the byte-level transports of the proxy in Dafny and proves what they promise: the smux session
(`src/mux.rs`), the layers around KCP (`src/kcp.rs`), the session cache (`src/mux_transport.rs`), the `otls` record
stream (`src/obfs_transport.rs`), and the small algorithms that access control and header reading rest on
(`src/permissions.rs`, `src/chain.rs`, `src/conn.rs`, `src/http_proxy.rs`).

Code that updates objects in place appears as a class. The methods of `WriteQueue`, `FecEncoder`, `FecDecoder` and
`PacketFramer` are proved against step functions on values; those of `StreamShared`, `SessionShared`, `MuxStream`,
`Dialer` and `Conn` state their new state outright; those of `SnappyStream` and `ObfsTlsStream` are proved against the
same encoding and decoding functions that the run-level steps are made of. In-place loops keep their array.

Concurrency and the network appear as runs: a run is any finite sequence of steps of any of the parties, so a theorem
about every run covers every interleaving of those steps, and every fragmentation, loss, reordering and duplication.
Some states carry a record of the past (bytes accepted, bytes delivered, frames in flight, sequence numbers given out);
the theorems are about those records.

What one step is:

- Receive credit, wake-up, id allocation, send queue and session cache: every section under a lock and every atomic
  access is a step of its own. The reader's lookup and insert for a SYN, its lookup, spending and push for a PSH, a
  read's copy and refund, and a drop's removal, recycling and refund all interleave freely.
- The two-peer protocol: one call on a stream, one batch taken, any number of bytes moved, or one frame handled by a
  reader is a step.
- The class methods describe one call that runs undisturbed.

## Layout

| file | contents |
|---|---|
| `bytes.dfy`, `modular.dfy` | integer fields, exclusive-or, remainders, serial-number order |
| `mux_codec.dfy`, `mux_queue.dfy`, `mux_session.dfy` | smux frames, the outbound queue, ids, streams and their calls |
| `mux_protocol.dfy`, `mux_drain.dfy` | two peers: what every run keeps, and that every run can be completed |
| `mux_credit.dfy`, `mux_wakeup.dfy` | receive credit, the reader's wake-up |
| `mux_dialer.dfy` | the session cache |
| `crc.dfy`, `crypt.dfy`, `packet.dfy` | checksum, ciphers, datagram framing |
| `fec_codec.dfy`, `fec.dfy`, `fec_window.dfy`, `fec_recovery.dfy`, `fec_system.dfy`, `fec_once.dfy`, `fec_complete.dfy` | erasure coding |
| `snappy.dfy`, `obfs_tls.dfy`, `obfs_hello.dfy` | compression framing and the otls stream |
| `glob.dfy`, `host_port.dfy`, `http_date.dfy`, `proxy_conn.dfy` | matching, addresses, dates, read-ahead |

## What is taken from outside

- The Reed-Solomon library: any d of the d + p shards determine the data and parity is as long as the data
  (`FecCodec.IsErasureCode`); `FecCodec.XorIsErasureCode` and `FecCodec.RepeatIsErasureCode` show the hypothesis can be
  met, with less and with more parity than data.
- A block cipher is any function that keeps the block length; a stream cipher is any keystream of the asked length.
- The snappy compressor can decompress what it compressed.
- Nonces, hello randoms, clocks and what a transport accepts or delivers next are parameters.
- One encoder feeds one decoder. The listener keys decoders by address and keeps one when a new conversation replaces
  a session, so two encoders can meet in one window there; the FEC theorems do not speak about that case.

## Findings

- Receive credit is conserved over the registered streams and the calls in progress in every state of every run in
  which no `open_stream` registers an id that is in the table or that the reader has just found free for a SYN, and no
  drop recycles the stream the reader is about to push to. The condition is exact: from any state that accounts
  exactly, a step leaves every such continuation accounted for if and only if it is not one of these, even if the
  stream in the table has nothing unread. A peer can provoke the first by sending a SYN with an id of our own parity.
  The exact ledger and the bound on buffered bytes hold without any condition. All this is about an open session.
- The refusal flag for stream ids is read before the lock. The ids handed out stay distinct if and only if nobody takes
  the lock after the overflowing bump, which can happen exactly when a caller is past the test at that moment; that
  caller is given the first id again.
- A group can be rebuilt twice without any duplicated datagram exactly when there is at least as much parity as data,
  and then every block of it is handed over twice. With less parity than data a block is still handed over twice exactly
  when its shard arrives and its group is rebuilt while the window lacks it; reordering alone suffices for that. The
  blocks are KCP segments, and it is left to KCP to drop the second copy.
- The session reader and the frame decoder see the same frames of a wire stream if and only if the stream never reaches
  a window update of the session's version whose length field is not 8 and of which enough bytes are there for one of
  the two.
- The chain's address splitter accepts addresses the permission check refuses, never the other way round: the checker
  agrees exactly on bracket-free hosts that stand in brackets or have no colon.
- The snappy reader reports a transport that ends inside a chunk as a clean end; that end falls on a chunk boundary if
  and only if nothing undecoded is left in its buffer. The otls reader reports such an end as truncation.
- The bound on snappy's undrained bytes does not bound its buffer, which is cleared only when all of it has drained: it
  holds exactly what was appended since then, and with a transport that always leaves a byte it outgrows any size.

## Model

| member | source | states |
|---|---|---|
| MuxCodec.HeaderRoundTrip | src/mux.rs:122-142 | header encoding and decoding are inverse in both directions on all eight-byte strings |
| MuxCodec.HeaderLayout | src/mux.rs:124-131 | which byte of a header holds which field, low bytes first |
| MuxCodec.FrameRoundTrip | src/mux.rs:174-250 | an accepted frame decodes back, whatever follows it, exactly when only PSH and UPD carry payload |
| MuxCodec.DecodeIsIncremental | src/mux.rs:213-250 | a decoded frame depends only on the bytes consumed, and every shorter prefix asks for more |
| MuxCodec.EncodeBatch | src/mux.rs:1030-1037 | the writer's loop yields the concatenated frames, or fails exactly when one is oversized |
| MuxCodec.ParsersAgreeOnceIff | src/mux.rs:910-981 | on one frame of the session's version the reader's inline parse equals the decoder exactly unless it is an odd window update with enough bytes for one of them |
| MuxCodec.ParsersAgreeIff | src/mux.rs:910-981 | on a wire stream the reader sees exactly the frames the decoder yields, if and only if the stream never reaches such an update |
| MuxCodec.OddUpdateDesynchronises | src/mux.rs:966-973 | a concrete stream on which the two parsers disagree |
| MuxCodec.BatchRoundTrip | src/mux.rs:1030-1041 | what one end encodes, the other end's reader parses back frame for frame |
| MuxQueue.WriteQueue.PushCtrlFrame | src/mux.rs:410-421 | a control frame joins the overtaking lane and takes a sequence number unless closed |
| MuxQueue.WriteQueue.ForcePushData | src/mux.rs:427-440 | a data frame joins the data lane, is counted in bytes, and its sequence number is returned unless closed |
| MuxQueue.WriteQueue.PollReserve | src/mux.rs:443-453 | room is reported exactly while the byte count is below the limit and the queue is open |
| MuxQueue.WriteQueue.PollFlushed | src/mux.rs:457-467 | flushed exactly when the written count has reached the number, otherwise refused or pending |
| MuxQueue.WriteQueue.Take | src/mux.rs:470-483 | a batch is everything queued, control frames first |
| MuxQueue.WriteQueue.Mark | src/mux.rs:485-491 | only the written count advances |
| MuxQueue.FlushIsExact | src/mux.rs:410-491 | in every run a flush is reported exactly when every frame numbered up to it has been written and flushed; batches are contiguous ranges although control frames overtake |
| MuxQueue.FlushStepKeeps | src/mux.rs:470-491 | pushed minus written is queued plus in flight, preserved by every step |
| MuxQueue.PushIsNumbered | src/mux.rs:410-440 | a push on an open queue takes the next number, which is that frame's; a closed queue takes nothing |
| MuxQueue.FlushDrains | src/mux.rs:1018-1048 | from every reachable state the writer, left alone, writes and flushes everything pushed |
| MuxQueue.SendQueueBounded | src/mux.rs:1229-1248 | with reserve and push apart, k writers never exceed limit - 1 + k frames and the counter is the sum of the lane |
| MuxQueue.SendStepKeeps | src/mux.rs:427-453 | the bound with its slack for writers that have reserved is preserved by every step |
| MuxQueue.SendBoundIsTight | src/mux.rs:363-365 | for every number of writers and frame size a run from the empty queue reaches the bound exactly |
| MuxSession.IdsAreExact | src/mux.rs:677-694 | the k-th allocation is the k-th id of the role's parity, exactly 2^31 - 1 succeed, all later ones are refused |
| MuxSession.IdsDistinctIff | src/mux.rs:677-694 | with the flag test and the locked bump as separate steps of any number of callers, the ids handed out are distinct if and only if no bump follows the overflowing one |
| MuxSession.LoneCallAllocates | src/mux.rs:677-694 | a call whose test and bump are not interrupted is one allocation |
| MuxSession.OverflowIsSafeIff | src/mux.rs:678-690 | at the overflow every continuation keeps the ids distinct if and only if no other caller is past the test; one that is gets the first id again |
| MuxSession.StreamShared.PushBytes | src/mux.rs:567-577 | received bytes are appended to the unread ones |
| MuxSession.StreamShared.TakeFront | src/mux.rs:1163-1183 | one turn of the copy takes a prefix of the unread bytes and either fills the buffer or pops a chunk |
| MuxSession.StreamShared.TakeBytes | src/mux.rs:1161-1184 | the copying loop delivers exactly the longest prefix that fits and keeps the rest |
| MuxSession.StreamShared.Recycle | src/mux.rs:602-609 | discards the unread bytes and reports their number |
| MuxSession.SessionShared.AllocateId | src/mux.rs:677-694 | allocation follows the id state machine |
| MuxSession.SessionShared.ReturnTokens | src/mux.rs:700-708 | the refund is added and the reader is rung exactly when it made the credit positive |
| MuxSession.SessionShared.OnPush | src/mux.rs:949-965 | payload reaches exactly the registered stream and is charged exactly when it does |
| MuxSession.SessionShared.OnFin | src/mux.rs:943-948 | only the named stream is marked finished |
| MuxSession.SessionShared.OnSyn | src/mux.rs:927-942 | a fresh stream is registered and its handle handed over exactly when the id is free; one that cannot be handed over leaves the table again behind a FIN and the reader stops |
| MuxSession.HandoverIs | src/mux.rs:992-1008 | exactly which outcomes of the attempts hand a stream over, drop it, or leave it waiting |
| MuxSession.SessionShared.DeliverAccept | src/mux.rs:987-1009 | a full backlog is tried again as long as the session lives; the first other outcome decides between the backlog and a drop |
| MuxSession.SessionShared.Fail | src/mux.rs:643-671 | the first failure closes the queue, marks and unregisters every stream without touching its unread bytes, and wakes and rings the reader; later ones change nothing, and the first cause is kept |
| MuxSession.MuxStream.PollRead | src/mux.rs:1151-1203 | delivers a prefix and refunds it; end of file only by FIN with nothing left, in preference to session death |
| MuxSession.MuxStream.PollWrite | src/mux.rs:1207-1249 | fails exactly after FIN or on a dead stream, session or queue, otherwise waits exactly while the queue is full, otherwise queues one frame of at most a frame's worth |
| MuxSession.MuxStream.SendFin | src/mux.rs:1133-1147 | FIN is queued at most once, behind the stream's data, and its number remembered |
| MuxSession.MuxStream.Drop | src/mux.rs:1283-1293 | queues FIN if none was, leaves the table, and refunds the unread bytes unless the id was gone from it |
| MuxSession.RunCalls | src/mux.rs:1216-1249 | over any sequence of writes, FINs and batches no payload of a stream is ever sent behind its FIN |
| MuxProtocol.StreamBytesAreConserved | src/mux.rs:886-983 | in every run of two peers, delivered ++ unread ++ on the wire ++ queued equals the bytes accepted, per stream and direction |
| MuxProtocol.EofMeansComplete | src/mux.rs:1193-1200 | even across session death, with the reader working on after it, the delivered bytes are a prefix of the accepted ones, and end of file is reported only after all of them |
| MuxProtocol.StepAKeeps | src/mux.rs:1011-1048 | every step of either end keeps the two-way invariant |
| MuxProtocol.PushKeeps | src/mux.rs:427-440 | queueing SYN, PSH or FIN keeps what the frames in flight will do to the receiver in step with the sender's record |
| MuxProtocol.TakeKeeps | src/mux.rs:470-483 | a batch in which keepalives overtake data changes nothing for any stream |
| MuxProtocol.FrontFrame | src/mux.rs:910-981 | the reader between two such peers never meets a fatal frame and decodes exactly the first frame in flight |
| MuxProtocol.ProcessKeeps | src/mux.rs:925-965 | handling a frame moves it from the pipe to the receiver without loss |
| MuxProtocol.FeedPayload | src/mux.rs:949-965 | a receiver ends with what it has plus the payload to come, and FIN ends it |
| MuxDrain.EverythingIsDelivered | src/mux.rs:886-983 | from every reachable state a continuation of writer, transport and reader turns and reads empties both directions; every stream still open has then delivered exactly what was accepted, and reads report end of file where the sender has finished |
| MuxDrain.EndToEnd | src/mux.rs:797-830 | whatever a client writes on a stream it opened and finished can be run through to the server, which has then delivered exactly those bytes and reports end of file |
| MuxDrain.DropLetsGo | src/mux.rs:1283-1293 | a dropped handle is finished, its unread bytes gone, and nothing works on it any more; no other stream is touched |
| MuxDrain.FailEndsTheSession | src/mux.rs:643-671 | after a failure received bytes can still be read, and nothing more is accepted, queued or opened |
| MuxDrain.KeepaliveOvertakes | src/mux.rs:470-483 | a keepalive goes out ahead of every data frame queued before it |
| MuxCredit.BufferedBytesAreBounded | src/mux.rs:897-908 | whatever the peer sends, bucket + buffered + in the hands of calls + stranded is the receive buffer, and buffered bytes exceed it by at most 65534 |
| MuxCredit.ReaderIsGated | src/mux.rs:897-908 | the reader starts on a frame exactly with credit and nothing in hand |
| MuxCredit.StepKeepsLedger | src/mux.rs:949-965 | every step keeps the ledger |
| MuxCredit.CreditIsConserved | src/mux.rs:696-708 | in every calm run bucket, registered streams and calls in progress make up the receive buffer; between calls bucket and registered streams alone do |
| MuxCredit.CalmIsExact | src/mux.rs:927-965 | for every step, every calm continuation stays accounted for if and only if the step is calm |
| MuxCredit.StepKeepsExactIff | src/mux.rs:696-708 | from a state that accounts exactly, a step keeps it so if and only if it is calm |
| MuxCredit.OpenIsSafeIff | src/mux.rs:797-807 | every calm continuation of an open stays accounted for if and only if its id is neither in the table nor about to be registered by the reader |
| MuxCredit.OpenKeepsAccountIff | src/mux.rs:797-807 | the open itself keeps the account exactly when its id is not registered to a stream with unread bytes |
| MuxCredit.GapDropIsSafeIff | src/mux.rs:957-962 | recycling a dropped stream is safe exactly when the reader is not about to push to it; otherwise, after any steps whatever, the frame is still in hand or the account is short |
| MuxCredit.CollidingIdBreaksTheAccount | src/mux.rs:801-807 | a concrete run in which the account fails at the open |
| MuxCredit.EmptyCollisionBreaksLater | src/mux.rs:1286-1290 | a concrete run in which it fails only later, at a drop |
| MuxCredit.SynGapBreaksLater | src/mux.rs:928-936 | a concrete run in which the id is free at the open and the reader then registers it over the open |
| MuxCredit.DropInTheGapLeaks | src/mux.rs:957-962 | for every id and frame size, a run in which a drop between lookup and push strands the frame's credit |
| MuxWakeup.NoLostWakeUp | src/mux.rs:700-708 | a reader about to wait with credit available, or with the session dead, always has a permit or a notifier on its way, whose next step wakes it |
| MuxWakeup.RunKeepsWakeInv | src/mux.rs:897-908 | the wake-up invariant holds in every run |
| MuxWakeup.ReaderResumes | src/mux.rs:897-908 | in every reachable state of an open session with credit the reader's own steps and at most one pending notification bring it to the next frame; without credit it never reads |
| MuxDialer.AtMostOneUsableSession | src/mux_transport.rs:606-660 | at most one session is usable, it is the published one or the lock holder's, and sessions built are at most one more than those that became unusable |
| MuxDialer.PublishedSessionsWork | src/mux_transport.rs:635-638 | in every run the cached session is one on which a stream was opened, and one on which none could be is closed once its builder lets go |
| MuxDialer.UsableSessionServes | src/mux_transport.rs:606-616 | a usable cached session serves a dial at once, with no lock taken and nothing built |
| MuxDialer.LoneDial | src/mux_transport.rs:618-643 | an undisturbed dial with no usable session builds one and publishes it exactly if a stream can be opened on it; otherwise it is closed and the cache left as the look left it |
| MuxDialer.FailedTransport | src/mux_transport.rs:630-630 | a transport that fails ends the dial and frees the lock with nothing built |
| MuxDialer.CloseThenLook | src/mux_transport.rs:677-686 | closing leaves the dead session in the cache and the next look evicts it |
| MuxDialer.BuildStepKeeps | src/mux_transport.rs:637-650 | building, opening and publishing keep the invariant |
| MuxDialer.LookStepKeeps | src/mux_transport.rs:627-637 | the second look under the lock keeps it |
| MuxDialer.SessionStepKeeps | src/mux_transport.rs:682-686 | sessions dying, refusing or being closed keep it |
| MuxDialer.Dialer.LiveSession | src/mux_transport.rs:645-660 | a closed session is evicted, any other is returned |
| MuxDialer.Dialer.Dial | src/mux_transport.rs:606-643 | reuses the cached session when it takes a stream, otherwise builds at most one; the cache and all sessions afterwards, on success and on failure |
| Crc.TableStep | src/kcp.rs:463-469 | one table lookup does what eight clocks of the shift register do, for every polynomial |
| Crc.ShiftNLinear | src/kcp.rs:443-451 | shifting is linear over exclusive-or |
| Crc.BuildTable | src/kcp.rs:438-456 | the table holds eight shifts of each index |
| Crc.Crc32 | src/kcp.rs:463-469 | the table-driven loop computes the bit-serial checksum for every polynomial and input |
| Crc.CheckedResidue | src/kcp.rs:463-469 | a message followed by its own checksum always leaves the same residue, for every polynomial |
| Crc.PresetAndComplement | src/kcp.rs:463-469 | nothing sums to nothing and four bytes of ones to ones, for every polynomial |
| Crc.MaskIsInvertible | src/kcp.rs:471-473 | masking can be undone by an offset and a rotation, with its value on two inputs |
| Crypt.CfbInverts | src/kcp.rs:742-793 | CFB decryption undoes encryption for any block function, block size and length |
| Crypt.CfbEncrypt | src/kcp.rs:748-767 | the in-place loop computes CFB encryption |
| Crypt.CfbDecrypt | src/kcp.rs:772-793 | the in-place loop computes CFB decryption |
| Crypt.CfbEncAt | src/kcp.rs:748-767 | each byte of ciphertext is the plaintext byte with the byte of the enciphered previous ciphertext block, the initial vector first |
| Crypt.Cipher.EncryptAt | src/kcp.rs:698-740 | what each cipher does to each byte of a packet |
| Crypt.EncryptInPlace | src/kcp.rs:698-720 | every cipher's loop over the packet leaves exactly that |
| Crypt.Cipher.Inverts | src/kcp.rs:698-740 | every packet cipher inverts and keeps the length |
| Packet.UnsealInverts | src/kcp.rs:1163-1168 | a sealed body is recovered with its checksum, for every cipher |
| Packet.UnsealIff | src/kcp.rs:1218-1231 | a body comes out of a packet if and only if it decrypts to some nonce, that body's checksum and that body |
| Packet.UnframeIff | src/kcp.rs:1218-1239 | unframing yields segments if and only if the packet is the sealing of a body that carries them and they hold a KCP header |
| Packet.UnframeFecIs | src/kcp.rs:1260-1290 | with recovery a stray packet yields nothing and leaves the window alone, a bare block is taken as it is, and a shard reaches the decoder with its own number, type and payload |
| Packet.BareBlockPassesIff | src/kcp.rs:829-840 | a bare block is taken for itself exactly when bytes 4 and 5 spell no shard type; KCP commands never do |
| Packet.UnframeInvertsBare | src/kcp.rs:1218-1239 | without FEC a datagram unframes to the written block |
| Packet.UnframeInvertsShard | src/kcp.rs:1019-1028 | with FEC a data datagram unframes to its block and a parity datagram to nothing |
| Packet.UnframeFecReceives | src/kcp.rs:1249-1306 | a sent shard reaches the decoder unchanged |
| Packet.UnframedBlocksWereWritten | src/kcp.rs:1249-1306 | in every reachable state every block unframed from a sent datagram was written |
| Packet.PacketFramer.Write | src/kcp.rs:1181-1205 | one write queues its sealed block, or its data shard and the parity it completes |
| Packet.BareDatagramFits | src/kcp.rs:340-370 | under a validated configuration a bare datagram is within the MTU |
| Packet.ArqMtuIsExact | src/kcp.rs:340-370 | the ARQ's largest block fills the MTU to the byte, with FEC and without; and exactly which configurations pass |
| Packet.ShardDatagramsFit | src/kcp.rs:403-431 | in every run every data and parity datagram is within the MTU and no length field wraps |
| FecCodec.XorIsErasureCode | src/kcp.rs:1099-1127 | the erasure hypothesis is met for every d by one exclusive-or parity shard |
| FecCodec.RepeatIsErasureCode | src/kcp.rs:1099-1127 | the hypothesis is met for one data shard and every number of parity shards by repetition |
| Fec.SegmentsIff | src/kcp.rs:1003-1012 | exactly which payloads yield segments, and which |
| Fec.PaddedPayload | src/kcp.rs:1003-1012 | a padded payload still yields exactly its segments |
| Fec.FecEncoder.Write | src/kcp.rs:1075-1141 | the encoder object follows its step: data shard, then parity when the group is full |
| Fec.FecDecoder.InsertOrdered | src/kcp.rs:893-914 | the backward scan and insertion |
| Fec.FecDecoder.Collect | src/kcp.rs:926-949 | the collection loop over the searched stretch |
| Fec.FecDecoder.Rebuild | src/kcp.rs:954-970 | the rebuilt shards that were missing, in index order |
| Fec.FecDecoder.Decode | src/kcp.rs:892-989 | the whole arrival step |
| Modular.SignedDiffOrders | src/kcp.rs:896-903 | numbers that wrap just below 2^32 keep their order under the signed difference when less than 2^31 - 256 apart |
| FecWindow.GroupEnds | src/kcp.rs:916-919 | the wrap on a group boundary keeps the decoder's group ends the group's own |
| FecWindow.SearchCovers | src/kcp.rs:921-924 | the bounded search covers every present shard of the arriving group |
| FecWindow.GroupCollected | src/kcp.rs:926-949 | the decoder collects the whole group as the window holds it, or nothing only when the window reaches back too far |
| FecRecovery.PadLengthIsGroupLength | src/kcp.rs:954-962 | reconstruction only runs with parity present, so its padding is the encoder's |
| FecRecovery.Reconstructs | src/kcp.rs:963-970 | reconstruction yields exactly the missing data shards |
| FecRecovery.ArrivalOutcome | src/kcp.rs:892-989 | an arrival waits or finishes its group, and finishes it exactly when d of its shards are present |
| FecRecovery.DuplicateOutcome | src/kcp.rs:896-900 | a shard already held changes nothing |
| FecRecovery.GroupOutIs | src/kcp.rs:951-972 | exactly that group's entries are removed |
| FecRecovery.WindowStaysBounded | src/kcp.rs:974-989 | the window never exceeds three groups, whatever arrives |
| FecSystem.EncoderSends | src/kcp.rs:1055-1141 | every write leaves the sent shards well formed: place, number, kind and parity |
| FecSystem.RecoveryIsSound | src/kcp.rs:1249-1306 | through any loss, reordering and duplication every emitted block was written; the window stays sorted, duplicate-free and bounded |
| FecOnce.RecoveryIsComplete | src/kcp.rs:926-972 | in every reachable state d shards of the arriving group suffice: exactly the missing blocks are emitted in order and exactly the group removed |
| FecComplete.WindowKeepsTheNewest | src/kcp.rs:974-989 | in every reachable state the window after an arrival is exactly what is in play but the least ones: one when there are more than 3 (d + p), and the expired ones |
| FecComplete.DShardsFinish | src/kcp.rs:926-972 | d shards of a group held or arriving finish it, as long as nothing expires and no arrival puts 3 (d + p) larger numbers into the window than one held of the group |
| FecComplete.GroupIsRecovered | src/kcp.rs:926-972 | from the start, every data block of such a group has then been handed over |
| FecOnce.EachGroupFinishesOnce | src/kcp.rs:951-972 | with less parity than data and no duplicates no group is finished twice |
| FecOnce.ParityFinishesAgain | src/kcp.rs:951-972 | for every shape with at least as much parity as data and every group of writes, a run without duplicates finishes the group twice and emits every write twice |
| FecOnce.TagsAreTheBlocks | src/kcp.rs:1249-1306 | in every run the emitted blocks are, one by one, those of the shards that arrived or were rebuilt |
| FecOnce.EmissionsAre | src/kcp.rs:951-972 | in any run a data shard's block is emitted once per arrival and once per rebuilding of its group while the window lacks it |
| FecOnce.EmittedTwiceIff | src/kcp.rs:951-972 | with less parity than data and no duplicates a block is emitted at most twice, and twice exactly when its shard arrives and is rebuilt |
| FecOnce.LateShardRepeats | src/kcp.rs:951-972 | for every shape and group of writes a reordering that makes a block appear twice |
| Snappy.ChunkRoundTrip | src/kcp.rs:1748-1837 | a chunk decodes to its source whatever follows it, compressed or not |
| Snappy.ChunkLayout | src/kcp.rs:1748-1768 | which byte of a chunk holds what, and that it is compressed exactly when that saves more than an eighth |
| Snappy.BodyIsTakenIff | src/kcp.rs:1791-1857 | exactly which chunk bodies are taken, skipped and fatal, kind by kind; a data chunk only with the masked checksum of its block |
| Snappy.WaitsOrRefuses | src/kcp.rs:1774-1790 | exactly when a buffer is waited on, and when its front is refused for its length alone |
| Snappy.DecodeIsIncremental | src/kcp.rs:1771-1790 | decoding depends only on the chunk's own bytes |
| Snappy.SnappyStream.PollDrain | src/kcp.rs:1871-1888 | a drain moves a prefix of the undrained bytes to the transport, and clears the buffer only when nothing is left |
| Snappy.SnappyStream.PollWrite | src/kcp.rs:1933-1961 | accepts one block behind the identifier if it is owed, and refuses exactly while too much is still undrained |
| Snappy.SnappyStream.DecodeChunks | src/kcp.rs:1771-1866 | the decoding loop follows its recursive form |
| Snappy.DecodeKeeps | src/kcp.rs:1771-1866 | decoding any front of a well-formed stream fails never and loses nothing |
| Snappy.StreamRoundTrip | src/kcp.rs:1891-1961 | for any writes, drains and fragmentation: no error, in order, complete once drained, one identifier, at most 5 * 65536 + 18 bytes undrained |
| Snappy.StreamDrains | src/kcp.rs:1891-1961 | from every reachable state before the end, a drain, an arrival and reads deliver all that was written |
| Snappy.BufferIsUnemptied | src/kcp.rs:1871-1888 | in every run the whole encoding buffer is exactly what was appended since nothing was last undrained |
| Snappy.BufferGrows | src/kcp.rs:1943-1949 | for every size a run of accepted one-byte writes and drains that leave one byte, after which the buffer is larger |
| Snappy.SnappyStream.Absorb | src/kcp.rs:1912-1923 | a read of nothing ends the stream for good and cleanly, any other is decoded as far as it goes |
| Snappy.SnappyStream.Deliver | src/kcp.rs:1898-1907 | hands over the longest prefix of the decoded bytes that fits and keeps the rest |
| Snappy.EndOfStream | src/kcp.rs:1915-1918 | in every run the reader's clean end falls on a chunk boundary if and only if nothing is undecoded; otherwise it cuts the next chunk |
| Snappy.TruncationEndsClean | src/kcp.rs:1915-1918 | for every write, a run that ends inside its chunk and is reported clean |
| ObfsTls.RecordRoundTrip | src/obfs_transport.rs:76-83 | a record comes off the front exactly when it is within the reader's limit |
| ObfsTls.TakeIsIncremental | src/obfs_transport.rs:278-296 | taking a record depends only on its own bytes |
| ObfsTls.ObfsTlsStream.FlushOut | src/obfs_transport.rs:301-324 | a flush moves a prefix of the encoded bytes to the socket |
| ObfsTls.ObfsTlsStream.PollWrite | src/obfs_transport.rs:401-425 | a write queues one record behind everything encoded before it, and is refused exactly while that has not drained |
| ObfsTls.ObfsTlsStream.TakeRecords | src/obfs_transport.rs:346-373 | the record loop of a read follows its recursive form |
| ObfsTls.ObfsTlsStream.Absorb | src/obfs_transport.rs:375-391 | a read of nothing is a clean end exactly with nothing buffered, and truncation otherwise |
| ObfsTls.ObfsTlsStream.Deliver | src/obfs_transport.rs:334-343 | hands over the longest prefix of the payload that fits and keeps the rest |
| ObfsTls.RecordRule | src/obfs_transport.rs:346-373 | what one whole record does, by its position and type |
| ObfsTls.AdvanceKeeps | src/obfs_transport.rs:346-373 | reading any front of the stream steps over the reply, delivers nothing of it and loses nothing |
| ObfsTls.StreamIsTransparent | src/obfs_transport.rs:327-425 | in both directions, under any fragmentation and partial writes, delivered is a prefix of written, to the server the ticket first, and all of it once everything arrived; the end is reported clean if and only if it falls on a record boundary |
| ObfsTls.StreamDrains | src/obfs_transport.rs:327-425 | from every reachable state before the end, in both directions, flushes, arrivals and reads deliver all that was written |
| ObfsTls.WriteIsTaken | src/obfs_transport.rs:412-425 | once everything encoded has gone out a write takes up to a record's worth |
| ObfsHello.TicketRoundTrip | src/obfs_transport.rs:90-179 | the session id and ticket of a built hello are read back |
| ObfsHello.WalkExtensions | src/obfs_transport.rs:165-178 | the extension walk finds the first session ticket |
| ObfsHello.TicketBehindOthers | src/obfs_transport.rs:165-179 | the walk finds the ticket behind any list of other extensions, and nothing without one |
| ObfsHello.AcceptIff | src/obfs_transport.rs:466-478 | exactly which openings are refused and which are complete |
| ObfsHello.OpeningRoundTrip | src/obfs_transport.rs:447-489 | an opening is accepted exactly when it fits the record limit and leaves every later byte |
| ObfsHello.OpeningThenStream | src/obfs_transport.rs:466-489 | the ticket of an accepted hello is what the server's stream delivers first, before everything written later |
| ObfsHello.SniNamesHost | src/obfs_transport.rs:100-140 | the extension behind the ticket names the host |
| ObfsHello.ReplyEchoes | src/obfs_transport.rs:182-212 | the server's hello carries the random bytes and echoes the client's session id |
| ObfsHello.ReplyIsTheOpening | src/obfs_transport.rs:182-212 | the deferred reply is the two records the client steps over |
| Glob.SplitKeepsMeaning | src/permissions.rs:110-115 | splitting a pattern at its stars keeps its meaning |
| Glob.GreedyStep | src/permissions.rs:124-140 | taking a part at its leftmost occurrence misses no match |
| Glob.MatchLeading | src/permissions.rs:124-140 | the loop reduces the match to the last part |
| Glob.GoGlob | src/permissions.rs:99-144 | the matcher decides exactly the recursive meaning of the pattern, for all inputs |
| HostPort.SplitsExactlyAddresses | src/permissions.rs:34-83 | splitting succeeds exactly on h:p and [h]:p with bracket-free parts, with exactly those parts |
| HostPort.SplitErrors | src/permissions.rs:34-83 | which refusal a missing port, too many colons or an open bracket gets |
| HostPort.SplitUndoesJoinIff | src/chain.rs:532-538 | splitting undoes joining exactly for bracket-free hosts |
| HostPort.SplittersAgree | src/chain.rs:1277-1295 | whatever the checker splits with a valid port the chain splits the same way |
| HostPort.CheckerAgreesIff | src/chain.rs:1277-1295 | whatever the chain splits, the checker splits the same way exactly for a bracket-free host that is bracketed in the address or has no colon |
| HostPort.ChainIsMoreLenient | src/chain.rs:1277-1295 | the converse fails on an unbracketed IPv6 address |
| HostPort.CheckedIsDialled | src/permissions.rs:298-328 | whenever the chain can split an address that is let through, that very host and port passed both lists; one without a colon passed with port 80 and is never split by the chain |
| HostPort.ParseU16Iff | src/permissions.rs:319-322 | the port texts that parse: an optional plus sign, noughts, and the port in decimal |
| HostPort.PermitsLaws | src/permissions.rs:201-291 | a list of rules permits what one of them does: actions and hosts by glob, ports within a range |
| HostPort.CanIff | src/permissions.rs:298-328 | an address is let through if and only if, with port 80 supplied where it has no colon, it has one of the two shapes, its port text spells a port, and that pair passes both lists |
| HttpDate.CivilIsTheCalendar | src/http_proxy.rs:526-542 | day 0 is Thursday 1 January 1970, every date is valid, and the next day's date and weekday are the calendar's successors |
| HttpDate.YearContains | src/http_proxy.rs:534-537 | the year formula puts every day of an era in one year of the right length |
| HttpDate.DateOfSteps | src/http_proxy.rs:538-541 | the month formula steps as the calendar does |
| HttpDate.HeaderFields | src/http_proxy.rs:543-553 | where weekday, day, month, year and clock stand in the value |
| HttpDate.EpochHeader | src/http_proxy.rs:519-553 | the value for the first second, spelt out |
| HttpDate.HeaderDeterminesTime | src/http_proxy.rs:543-553 | two headers are equal only for the same second, and four-digit years give the fixed 29-character form |
| ProxyConn.Conn.Peek | src/conn.rs:107-123 | shows the front of what is pending and changes nothing |
| ProxyConn.Conn.Unread | src/conn.rs:126-135 | puts exactly those bytes in front |
| ProxyConn.Conn.Read | src/conn.rs:142-164 | removes exactly what it delivers |
| ProxyConn.RunCalls | src/conn.rs:107-164 | over any sequence of calls the pending bytes change only by what was delivered or pushed back |
| ProxyConn.NothingLost | src/conn.rs:107-164 | the byte counts balance over any sequence of calls |
| ProxyConn.HeadEndIsShortest | src/chain.rs:1019-1020 | the search finds the shortest prefix that ends in a blank line |
| ProxyConn.ReadResponseHead | src/chain.rs:1004-1030 | success consumes exactly that prefix; a head of at most 8192 bytes that arrives is always returned; nothing else succeeds |

## Left out

- The session's `close`, and the credit of a session that has failed.
- Wakers and polling beyond the reader's wake-up, keepalive timing, and the configuration checks of `MuxConfig`.
- The two-peer protocol does not gate the reader on credit or writers on the queue limit; it allows every schedule they would, and more.
- Sequence and byte counters of 64 bits are unbounded integers.
- Transport errors other than end of stream, in every stream wrapper.
- FEC expiry by wall clock: the number of expired shards is an arbitrary parameter of each arrival.
- An error from the Reed-Solomon encoder, which would leave the sequence off its group boundary; the library is taken never to fail on equal, non-empty shards.
- Packet.PacketFramer.Write: the packet is modelled as header and protected body rather than one zeroed buffer written in place.
- KCP itself, the listener and the session driver, the smux v2 window, key derivation and the choice of cipher.
- The lossy text conversion of a response head, and the parsing of permission rules and port ranges from text.
- `ohttp`, whose stream is transparent after its upgrade, and the QUIC dialer, which repeats the session cache.
