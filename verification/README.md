# Verified model of the WDTT tunnel, its bond server and its UDP binds

This project models, in Dafny 4.11, the parts of the repository whose correctness depends on arithmetic that
wraps, on state shared between goroutines, or on buffers rewritten while they are read, and proves what they
promise over every input, every run and every interleaving.

* **Obfuscated RTP frames** (`Nonce`, `RtpFrame`, `WireLayout`, `ReplayWindow`, `ReplayDelivery`, `ReplayEpoch`,
  `ReplayJump`, `ReplayFar`, `Tunnel`, `TunnelRuns`, `TunnelJump`). A sender's packet counter becomes a 16-bit
  sequence number, a 32-bit timestamp and an AEAD nonce; the receiver unwraps the timestamp to 64 bits and keeps a
  bounded map of seen nonces. `TunnelRuns.HandsUpAccepted` puts the two together: of any datagrams at all, lost,
  reordered, repeated, re-padded or made up, the receiver hands up exactly the payloads of the packets that open and
  that the window accepts. It rests on two things named there: nobody else seals under the key with the sender's
  SSRC (`Honest`), and no datagram of another SSRC opens before the sender's first (`PeerFirst`). If the packets are
  near each other and not from before the epoch of the first (`Plausible`), those are the first copies
  (`TunnelRuns.HandsUpFirstCopies`); from whichever epoch, every packet once, or twice across the jump
  (`TunnelJump.HandsUpClose`).
* **UDP offload** (`GsoCoalesce`, `GsoMeaning`, `GroSplit`, `OffloadTrip`). Datagrams are coalesced into messages, and
  coalesced messages are split in place into the array they sit in. `OffloadTrip.OffloadRoundTrip`: splitting undoes
  coalescing exactly when no datagram is empty.
* **The stream bond** (`BondCodec`, `BondReorder`, `BondSinks`, `BondSystem`, `BondStriping`, `BondLanes`,
  `BondLimits`, `BondPair`, `Registry`). One byte stream is striped over lanes that may die with a torn frame on
  them, merged in any order and put together again. `BondSystem.BondSafety` and `BondSystem.BondCompletes` hold in
  every reachable state of one direction, `BondPair.PairSafety` and `BondPair.DeliveredExactly` of both together.
* **Schedulers and tables** (`RoundRobin`, `Chunks`, `Dispatcher`, `DispatcherRuns`, `Downlink`, `KeyStore`,
  `KeyEffects`, `Addresses`). The chunked round-robin of both directions, the unwrapping keys against the password
  table, and the two address pools.
* **Small concurrent kernels** (`Election`, `RingBuffer`, `RingCopy`). The load-then-swap election of the worker that
  asks for the configuration, and the packet rings of the Windows bind with their wrapping counters and their memory.

`Words`, `Division`, `Sets` and `Runs` hold machine words and big-endian fields, facts about quotients and set
sizes, and runs of a step function. A class stands for an object the source updates under its lock; each of its
methods is proved equal to a step function on values. The theorems about runs are about those functions, and so are
the laws that say what one step does without naming it. Randomness, clocks, write failures, the order in which a Go
map is walked and the steps of other goroutines are parameters or events, so the theorems hold for every choice of
them.

Where a promise is false of the code, the model keeps the code and states exactly when the promise holds:

* A frame with 255 bytes of random padding is rejected by both peers, because its padding count wraps to zero
  (`RtpFrame.RoundTrip`); the configured limits of 24 and 60 never draw that many (`RtpFrame.PaddingFits`).
* A reader's buffer is 80 bytes longer than its caller's, and a frame can be 88 bytes longer than its payload. With
  the video limit of 60 a payload as long as the caller's buffer can be lost (`Tunnel.VideoTooLong`); with the audio
  limit of 24 never (`Tunnel.AudioFits`). `Tunnel.DeliverableExactly` and `Tunnel.LimitFits` give the exact
  conditions, on one frame and on a limit; `TunnelRuns.OwnPaddingExactly` on a whole run.
* Padding is outside what the AEAD authenticates: the sealed part of a packet opens with any other padding that fits
  (`Tunnel.RepaddedOpens`). `Tunnel.OpensExactly` says which of all datagrams open.
* A datagram sealed under the same key with another SSRC, such as the receiver's own coming back, takes the window if
  it opens first, and then none of the sender's is handed up (`TunnelRuns.LockedOut`); the window becomes the sender's
  if and only if that does not happen (`TunnelRuns.LocksOnExactly`).
* The first packet to arrive fixes the 32-bit epoch the replay window counts from. A packet from before that epoch
  makes the window jump, and then a repeat can be accepted although every packet is recent
  (`ReplayEpoch.RepeatAccepted`); the window stays in its epoch if and only if no such packet comes
  (`ReplayEpoch.EpochExactly`). After the jump every first copy is still accepted (`ReplayJump.FirstCopiesAlways`), a
  packet can be accepted twice only once before and once after it (`ReplayJump.TwiceAcrossJump`), and
  `ReplayJump.AfterJumpExactly` says which arrivals are.
* A repeat from far behind is accepted again if and only if its nonce has been purged and its distance modulo 2^32 is
  at most the window's span or more than 2^31 ticks (or just 2^31, below the middle of an epoch)
  (`ReplayFar.FarRepeatExactly`). It happens for every sender, and the window is then deaf to the sender's next
  packets (`ReplayFar.FarRepeatAccepted`).
* An empty datagram that joins an open message is lost (`GsoMeaning.EmptyIsLost`,
  `GsoMeaning.OffloadPreservesExactly`).
* A segment size larger than the received length delivers bytes that were not received (`GroSplit.CutIsExact`), and a
  slot with a shorter buffer than its datagram holds only its front (`GroSplit.WholeExactly`).
* The reassembly gives up on a stream whose table of waiting chunks reaches 1024 entries, and chunks that arrive again
  after they were written stay in that table for good (`BondReorder.ClosedExactly`). Both happen: a slow lane stops a
  stream with no lane lost (`BondLimits.SlowLaneStops`), and a write that reports an error after its last byte leaves
  an entry behind (`BondLimits.RepeatStays`). A stream of fewer than 1024 chunks is always put together, if the
  destination takes the writes (`BondLimits.ShortStreamsComplete`).
* When the splitter's 64-bit lane index wraps, the turns of one chunk can pass over a live lane and stop
  (`BondLanes.LiveLaneMissed`, `BondLanes.LaneTwoMissed`); they reach every lane if and only if the index does not
  wrap during them or the number of lanes divides 2^64 (`BondLanes.CoversExactly`).
* When one direction of a bond ends at an end, that end is cancelled: the other direction's read there may fail at
  once, which the splitter takes for the end of its input, so that a cut stream is passed on as a whole one
  (`BondPair.CutPassedOnAsEnd`). The reassembly at a cancelled end goes on until it notices: the same state can lead
  to a stream passed on whole or never (`BondPair.ClosesAfterCancel`, `BondPair.LeavesAfterCancel`).
  `BondPair.PairSafety` says what can cut a read, and `BondPair.DeliveredExactly` when a direction is delivered, true
  end included.
* A chunk that is filled and then turns 15 ms old moves the round-robin on twice: the next worker is passed over, and
  of two workers the same one goes on (`Chunks.NextWorkerExactly`, `Chunks.FilledAndLate`).
* A password that expires between the cleaning and the rebuilding of one reload keeps its row and loses its key
  (`KeyStore.ReloadAgreesExactly`, `KeyStore.ReloadGap`).
* The bot's delete drops a key even where there is no row, so the main password given to it loses its key
  (`KeyStore.BotDeleteExactly`).
* Returning no slots to a full ring clears its mark (`RingBuffer.ReturnExactly`); the bind never does so.
* The bind posts a slot again before it copies the packet in it. Address and bytes handed up are the received ones
  until the kernel has filled 1024 further requests (`RingCopy.IntactExactly`); then the later packet's bytes lie over
  the earlier one's, cut to its length (`RingCopy.CopyExactly`). `RingCopy.Overwritten` is a run with the later
  address, `RingCopy.Mixed` one with the earlier address and the later bytes.

## Model

| member | source | states |
|---|---|---|
| Nonce.TsIsTrueTime | wdtt/obfs.go:216-217 | The timestamp computed in uint32 arithmetic is the unbounded time initTs + 960c + c/65536 cut to 32 bits, for every counter value. |
| Nonce.NonceFields | wdtt/obfs.go:177-184 | A nonce gives back the SSRC, sequence number and timestamp it was built from. |
| Nonce.OddMultiplier | wdtt/obfs.go:217 | 960 * 65536 + 1 is invertible modulo 2^32: multiplying by it sends no non-zero residue to zero. |
| Nonce.NonceCollision | wdtt/obfs.go:211-220 | Two packets of one sender share a nonce if and only if their counters differ by a multiple of 2^48. |
| Nonce.NonceUnique | wdtt-server/obfs.go:177-183 | Within 48-bit counters no nonce is used twice, whatever the SSRC and the initial values. |
| WireLayout.NonceLayout | wdtt/obfs.go:177-184 | The nonce byte by byte: SSRC, sequence number, two zeroes, time, each with its high byte first. |
| WireLayout.FieldsAdvance | wdtt/obfs.go:216-217 | Sequence number and time start at the sender's initial values; each packet adds one to the sequence number and 960 ticks to the time, one tick more every 65536 packets. |
| WireLayout.HeaderLayout | wdtt/obfs.go:239-245 | The twelve header bytes of a packet: 160, the payload type below 128, then sequence number, time and SSRC, high byte first. |
| RtpFrame.ObfsState.WrapPacket | wdtt-server/obfs.go:170-222 | It succeeds if and only if the key has 32 bytes, the payload is not empty and the random source delivers; the other calls return their error, a bad key or an empty payload without using a counter value. On success the buffer, reused or new, holds exactly the frame of the counter value consumed, 29 bytes longer than the payload plus the drawn byte modulo the padding limit. |
| RtpFrame.ObfsState.Fill | wdtt/obfs.go:233-264 | Header, sealed payload, padding and padding count are laid out in the buffer one after the other. |
| RtpFrame.PaddingDrawn | wdtt/obfs.go:222-231 | The padding is as long as the drawn byte modulo the limit, or none without a limit, and fails exactly when the random source does. |
| RtpFrame.EveryAmountDrawn | wdtt-server/obfs.go:184-193 | Every amount of padding below the limit and below 256 is drawn, by the byte that says it. |
| RtpFrame.FrameLength | wdtt/obfs.go:222-264 | A frame is at least 29 bytes longer than its payload and at most 28 plus the padding limit. |
| RtpFrame.RoundTrip | wdtt-server/obfs.go:224-262 | Both peers recover the payload of a frame if and only if fewer than 255 padding bytes were drawn. |
| RtpFrame.PaddingFits | wdtt/obfs.go:222-231 | 255 padding bytes can be drawn only with a limit above 255 and the draw 255. |
| RtpFrame.PeersAgree | wdtt/obfs.go:271-332 | Without the extension bit client and server read every wire alike. |
| RtpFrame.UnwrapExactly | wdtt/obfs.go:271-332 | Of all wires a peer unwraps as p exactly those with version 2 that are a header (12 bytes; at the client 24 if the extension bit is set), the seal of p, not empty and no longer than the buffer, under the header's own nonce, and, if the padding bit is set, the padding its last byte counts. |
| RtpFrame.RefusedExactly | wdtt-server/obfs.go:224-246 | Which error a wire gets: a key of other than 32 bytes, 12 bytes or fewer, another version, or a padding count of zero or of more than is behind the header. |
| RtpFrame.RefusedBehind | wdtt-server/obfs.go:247-262 | Of the others, no payload with at most 16 bytes left, too small a buffer with more than it and 16, and else the payload or the AEAD's refusal. |
| ReplayWindow.Replay.constructor | wdtt-server/obfs.go:36-42 | A fresh window has seen nothing. |
| ReplayWindow.Replay.Unwrap | wdtt-server/obfs.go:66-72 | The 64-bit time a timestamp stands for, in uint64 arithmetic. |
| ReplayWindow.Replay.Evict | wdtt-server/obfs.go:80-85 | In whatever order the map is walked, exactly the entries not older than the cutoff stay. |
| ReplayWindow.Replay.Insert | wdtt-server/obfs.go:76-91 | The highest time moves up, a full map is purged, and the nonce is stored unless the map is still full. |
| ReplayWindow.Replay.Accept | wdtt-server/obfs.go:44-92 | The whole of one call, on every wire: the new window and the answer. |
| ReplayWindow.RunIsBounded | wdtt/obfs.go:45-93 | After any packets at all the map has at most 8192 entries and none is newer than the highest time. |
| ReplayWindow.HighestGrows | wdtt/obfs.go:77-79 | The highest time never decreases along a run. |
| ReplayWindow.NeverAcceptedTwice | wdtt/obfs.go:45-93 | A packet accepted at time E is refused while the highest time is less than 2^31 above E, whatever arrives in between and even if its entry was evicted. |
| ReplayWindow.NonceOnlyOnce | wdtt/obfs.go:45-93 | The same for wires that share nothing but the nonce. |
| ReplayDelivery.UnwrapExact | wdtt-server/obfs.go:66-72 | A true time within 2^31 of the highest is recovered exactly from its low 32 bits, across any number of wraps. |
| ReplayDelivery.EvictionBound | wdtt-server/obfs.go:79-89 | Entries no older than the window span come from at most 4101 counters. |
| ReplayDelivery.ArrivalStep | wdtt-server/obfs.go:44-92 | One arrival is accepted if and only if it is the first copy, and the window keeps tracking the sender: a first copy may be 4096 packets behind or 2^31 ticks ahead, a repeat up to 2^31 ticks behind. |
| ReplayDelivery.RepeatRefused | wdtt-server/obfs.go:44-92 | A repeat less than 2^31 ticks behind is refused and changes nothing, whether its nonce is still stored or was purged. |
| ReplayDelivery.RunTracks | wdtt-server/obfs.go:44-92 | Along any run of near packets, none from before the epoch the first one opened, the window tracks the sender and accepts exactly the first copies. |
| ReplayDelivery.SenderIsLawful | wdtt/obfs.go:216-220 | An actual sender's times advance 960 or 961 ticks a packet and its nonces are distinct, as the run theorem needs. |
| ReplayDelivery.FirstCopiesExactly | wdtt-server/obfs.go:44-92 | If packet 0 comes first, no first copy is more than 4096 packets behind or 2^31 ticks ahead and no repeat 2^31 ticks behind, every first copy is accepted and every repeat refused; the entry cap never interferes. |
| ReplayEpoch.EpochExactly | wdtt-server/obfs.go:44-92 | Over near packets, whichever comes first, the window counts from the epoch it opened in at every moment if and only if no packet from before that epoch arrives. |
| ReplayEpoch.LeavesEpoch | wdtt-server/obfs.go:66-79 | The first packet from before the opening epoch takes the highest time off the newest packet. |
| ReplayEpoch.RepeatAccepted | wdtt-server/obfs.go:44-92 | A concrete run of near packets, 5000, then 904 to 9096, then 5000 again, whose first packet is accepted twice. |
| ReplayJump.JumpStep | wdtt-server/obfs.go:44-92 | One packet after the jump: what the window takes, and that it tracks the packets it has taken since, with the entries from before all there until the map is full and then all gone. |
| ReplayJump.AfterJumpExactly | wdtt-server/obfs.go:44-92 | After a packet from before the opening epoch an arrival is accepted if and only if its packet was not accepted since and, if it came before the jump already, more than 8192 packets have been accepted in all and it is within the span of the newest since. |
| ReplayJump.FirstCopiesAlways | wdtt-server/obfs.go:44-92 | Whichever packet comes first and from whichever epoch, every first copy at most 4096 packets behind and a span less than 2^31 ticks ahead is accepted. |
| ReplayJump.TwiceAcrossJump | wdtt-server/obfs.go:44-92 | A packet accepted twice was accepted once before the jump and once after it, so never three times, and never twice without a jump. |
| ReplayFar.FarRepeatExactly | wdtt-server/obfs.go:44-92 | A repeat at any distance is accepted if and only if its nonce is forgotten and the distance modulo 2^32 is within the span, above 2^31, or just 2^31 with the highest time in the lower half of its epoch; what becomes of the highest time. |
| ReplayFar.AllStored | wdtt-server/obfs.go:79-91 | While at most 8192 packets have come, each has its entry. |
| ReplayFar.FarRepeatAccepted | wdtt-server/obfs.go:44-92 | For every sender: after packets 0 to 8192, 1500000 and 3000000, packet 0 is accepted again, and then any number of packets from 2240000 to 4465000 is refused, new ones too. |
| Tunnel.ReadWholeExactly | wdtt/session.go:61-65 | A datagram is read whole if and only if its frame is no longer than the caller's buffer plus 80. |
| Tunnel.UnwrapsExactly | wdtt/session.go:66-72 | Which of all texts a receiver unwraps as p: those that carry p, and at the client only with payload type 96 or 111. |
| Tunnel.FrameIsReceived | wdtt/session.go:67-76 | The receiver reads off a frame exactly the counter's time and nonce, and unwraps its payload. |
| Tunnel.DeliverableExactly | wdtt/session.go:60-79 | The payload comes out of a packet's datagram if and only if payload and padding fit the buffer and the padding count did not wrap, or the frame is cut just behind a padding byte that happens to count what is left. |
| Tunnel.LimitFits | wdtt-server/obfs.go:354-363 | Every frame of a payload fits under a padding limit, whatever is drawn, if and only if payload and limit exceed the caller's buffer by at most 52. |
| Tunnel.AudioFits | wdtt/obfs.go:222-231 | With the audio limit of 24 every payload that fits the caller's buffer is deliverable. |
| Tunnel.VideoTooLong | wdtt/session.go:60-79 | With the video limit of 60 and 59 drawn, a payload as long as the caller's buffer makes a frame of 88 bytes more and is dropped. |
| Tunnel.OpensExactly | wdtt/obfs.go:276-331 | Of all datagrams, given that nobody else seals under the key with the sender's SSRC, those open that are header and seal of one of its packets with any padding its last byte counts, and those with another SSRC. |
| Tunnel.RepaddedOpens | wdtt/obfs.go:302-310 | Padding is not authenticated: the body of a packet with any other padding that fits opens as that packet. |
| Tunnel.OwnFrameExactly | wdtt/session.go:60-79 | The sender's own frame opens as its packet if and only if it is deliverable. |
| TunnelRuns.HandsUpAccepted | wdtt/session.go:60-79 | Over any datagrams, if nobody else seals under the key and SSRC and none of another SSRC opens before the sender's first, what is handed up is the payloads of the packets that open and that the window accepts, in order, and the window is that of those packets alone. |
| TunnelRuns.HandsUpFirstCopies | wdtt/session.go:60-79 | If moreover the packets that open are near and not from before the epoch of the first, what is handed up is the payloads of their first copies, in order. |
| TunnelJump.HandsUpClose | wdtt/session.go:60-79 | If they are close, from whichever epoch, each packet that opens is handed up once or twice, and twice only if it came before the jump and again after it. |
| TunnelRuns.LockedOut | wdtt-server/obfs.go:56-64 | If a datagram with another SSRC opens before the sender's first, none of the sender's changes anything. |
| TunnelRuns.LocksOnExactly | wdtt-server/obfs.go:56-64 | The window ends up with the sender's SSRC if and only if no datagram with another one opened before the sender's first. |
| TunnelRuns.NothingMissingExactly | wdtt/session.go:60-79 | Under the same conditions as many payloads are handed up as packets arrive if and only if some datagram of each packet opens. |
| TunnelRuns.OwnPaddingExactly | wdtt/session.go:60-79 | Where the padding is the sender's own, this is so if and only if every packet that arrives is deliverable. |
| GsoCoalesce.PlaceDatagram | amneziawg-go/conn/bind_std.go:461-496 | One turn of the loop places a datagram as the greedy grouping does and keeps the loop's variables in step with it. |
| GsoCoalesce.CoalesceMessages | amneziawg-go/conn/bind_std.go:450-498 | The array's front holds the messages of the greedy grouping of the datagrams, every one of them to the address asked for, the rest is untouched, and the count is returned. |
| GsoCoalesce.GroupPartitions | amneziawg-go/conn/bind_std.go:461-496 | The groups, joined, are the datagrams handed in, in order. |
| GsoCoalesce.GroupsLegal | amneziawg-go/conn/bind_std.go:466-481 | In every group all but the last datagram have the first one's size, and the last is not larger. |
| GsoCoalesce.GroupsMaximal | amneziawg-go/conn/bind_std.go:466-481 | A group ends only because it has 64 datagrams, the next would exceed the payload limit or its buffer, the next is larger than its first, or its last is already smaller. |
| GsoMeaning.GroupRestored | amneziawg-go/conn/bind_std.go:471-493 | Cutting a message by its recorded size gives back its datagrams if and only if it holds one, or its last is not empty; otherwise it gives fewer. |
| GsoMeaning.OffloadPreservesExactly | amneziawg-go/conn/bind_std.go:450-498 | What receivers get from the messages of one call is exactly the datagrams handed in, in order and each at the address asked for, if and only if no empty datagram joins an open message. |
| GsoMeaning.OffloadPreservesDatagrams | amneziawg-go/conn/bind_std.go:450-498 | For any non-empty datagrams, what receivers get from the messages is exactly those datagrams, in order, at that address. |
| GsoMeaning.EmptyIsLost | amneziawg-go/conn/bind_std.go:466-484 | An empty datagram between two others joins the first and does not come out. |
| GsoMeaning.MessageLimits | amneziawg-go/conn/bind_std.go:437-446 | A message goes to the address asked for and holds at most 64 datagrams; one with several has at most 65507 or 65527 bytes, fits its buffer and records their size once, untruncated; one with a single datagram records none. |
| GroSplit.SplitOne | amneziawg-go/conn/bind_std.go:508-535 | The pieces of one message are appended to the front slots, each as far as its slot's buffer goes, although the last may overwrite the message itself; overflow exactly when there is no slot left. |
| GroSplit.SplitCoalescedMessages | amneziawg-go/conn/bind_std.go:502-544 | The in-place loop over the array yields the reference split: the filled slots, the outcome and the cleared sources. |
| GroSplit.SplitIsComplete | amneziawg-go/conn/bind_std.go:502-544 | On success the front slots hold every piece of every message read, in order. |
| GroSplit.SplitStops | amneziawg-go/conn/bind_std.go:505-520 | Without overflow reading stops at the end, at an empty message or, with an error, at one whose control block does not parse. |
| GroSplit.WholeExactly | amneziawg-go/conn/bind_std.go:526-527 | The slots hold the datagrams whole if and only if each slot's buffer is long enough for its own. |
| GroSplit.EqualBuffersWhole | amneziawg-go/conn/bind_std.go:526-527 | With buffers of one length, as the bind hands in, every datagram is whole. |
| GroSplit.OverflowExactly | amneziawg-go/conn/bind_std.go:522-525 | The overflow error happens if and only if through some message there are more pieces than slots. |
| GroSplit.BatchNeverOverflows | amneziawg-go/conn/bind_std.go:243-248 | Reading into the last slots/64 slots with at most 64 segments a message never overflows. |
| GroSplit.CutIsExact | amneziawg-go/conn/bind_std.go:518-533 | The pieces are those of the sender's segmentation if and only if the reported size does not exceed the received length. |
| OffloadTrip.OffloadRoundTrip | amneziawg-go/conn/bind_std.go:243-248 | Reading coalesced messages into the last slots and splitting them delivers exactly the datagrams that were coalesced, in order and with no error, if and only if none of them is empty. |
| BondCodec.ReadWritten | bond-server/bond.go:67-102 | A written frame is read back whole whatever follows it, and a proper prefix of one is never taken for a frame. |
| BondCodec.ReadLane | bond-server/bond.go:143-158 | The reader's loop returns all frames of the lane up to its end or its first error. |
| BondCodec.WholeStream | bond-server/bond.go:67-102 | Any concatenation of written frames parses back into those frames. |
| BondCodec.CutStream | bond-server/bond.go:85-102 | A lane cut anywhere parses to exactly the longest prefix of its frames whose bytes arrived. |
| BondCodec.NextOnLane | bond-server/bond.go:145-150 | With a torn frame at the end of a lane the reader finds every whole frame and never the torn one. |
| BondCodec.HelloExactly | bond-server/bond.go:49-65 | A handshake is accepted as h if and only if the lane starts with the bytes of h. |
| WireLayout.FrameLayout | bond-server/bond.go:67-82 | A frame byte by byte: type (1 data, 2 FIN), eight bytes of sequence number and four of length, high byte first, then the payload. |
| WireLayout.HelloLayout | bond-server/bond.go:49-65 | The handshake byte by byte: "OLB1", version 1, eight bytes of connection, two of lane index, two of lane count, high byte first. |
| WireLayout.ReadFrameExactly | bond-server/bond.go:85-102 | A length over 16384 is an error, fewer bytes than header and length are no frame yet, and otherwise payload and rest are cut at that length. |
| WireLayout.HelloRefused | bond-server/bond.go:49-59 | Which error a handshake gets: fewer than 17 bytes, other letters than "OLB1", or a version other than 1, which is named. |
| BondReorder.WriteReady | bond-server/bond.go:250-262 | The inner loop writes out every chunk that is next in line, and stops at a refused write. |
| BondReorder.Reassemble | bond-server/bond.go:220-265 | The loop ends in the state its frames lead to, through every early return, a write that fails after any part of its bytes included. |
| BondReorder.AtRest | bond-server/bond.go:250-262 | In every run, between two frames the chunk next in line does not wait. |
| BondReorder.RefusedFrame | bond-server/bond.go:235-248 | The reassembly ends at a frame of unknown type and at a chunk when 1024 wait, and once ended does nothing. |
| BondReorder.FinFrame | bond-server/bond.go:225-246 | The lowest FIN counts, and closes the stream if and only if everything before it is out. |
| BondReorder.EarlyFrame | bond-server/bond.go:237-241 | A chunk that is not next in line waits under its number. |
| BondReorder.NextFrame | bond-server/bond.go:250-263 | The chunk next in line is written whole; a write that fails leaves just the bytes it got through and ends the reassembly. |
| BondReorder.OutputIsPrefix | bond-server/bond.go:220-265 | For any order and repetition of genuine frames and any failing destination, the output is a prefix of the stream, and the end is signalled only when it is all of it. |
| BondReorder.ClosedExactly | bond-server/bond.go:236-262 | To a working destination: the end is signalled if and only if everything has arrived and the table of waiting chunks, described by the arrivals alone, was never full before. |
| BondSinks.ClosedWithSink | bond-server/bond.go:220-265 | For any order and repetition of genuine frames and any destination, the end is signalled if and only if everything has arrived, the table was never full before, and no write of the stream fails. |
| BondReorder.AnyOrder | bond-server/bond.go:220-265 | A stream of at most 1024 chunks is put together from any order of its frames, once each. |
| BondReorder.FewAlwaysFit | bond-server/bond.go:236-239 | A stream of fewer than 1024 chunks never fills the table, in any order and with any repeats: the end is signalled if and only if everything has arrived. |
| BondReorder.GapStops | bond-server/bond.go:236-239 | With chunk 0 missing, the chunk that arrives after 1024 different ones ends the reassembly. |
| BondReorder.FirstMissing | bond-server/bond.go:236-239 | Chunks 1 to 1025 of any longer stream, without chunk 0, make the reassembly give up. |
| BondSystem.ReceiveNext | bond-server/bond.go:143-158 | A reader, parsing its lane's bytes, takes the next whole frame or nothing. |
| BondSystem.StepKeeps | bond-server/bond.go:120-265 | Every step of either end keeps the system invariant: genuine frames only, no write after a torn one, every committed chunk on some lane. |
| BondSystem.BondSafety | bond-server/bond.go:120-265 | In every reachable state of one direction the bytes out are a prefix of the bytes read, and the end is passed on only when the splitter's read has ended, by the end of the input or by an error such as the deadline set on cancelling, and all that was read is out. |
| BondSystem.BondCompletes | bond-server/bond.go:176-265 | Once the splitter has finished with a FIN through and all it wrote is merged, the far end has passed on the whole stream if and only if its table was never full and the destination takes every write. |
| BondStriping.ReadEffect | bond-server/bond.go:176-186 | Anything of 1 to 16384 bytes read becomes one chunk. |
| BondStriping.ReceiveExactly | bond-server/bond.go:138-158 | A reader hands over its lane's next whole frame, last in the channel, if and only if there is one and fewer than 1024 wait. |
| BondStriping.ChannelEffect | bond-server/bond.go:138-158 | The channel is a queue: the reassembly takes its first frame, a reader adds one last, nothing else touches it. |
| BondStriping.BufferBounded | bond-server/bond.go:138 | In every run at most 1024 frames wait in the channel. |
| BondStriping.BrokenWrite | bond-server/bond.go:67-83 | A write that fails after some bytes of a frame leaves exactly these on the lane, after all of them the frame. |
| BondStriping.DiesEffect | bond-server/bond.go:145-149 | A reader's error marks its lane dead and changes nothing else. |
| BondStriping.DeadForGood | bond-server/bond.go:188-216 | In every run a dead lane stays dead and nothing more is written to it, not even a FIN. |
| BondStriping.StripedAlways | bond-server/bond.go:203-218 | While no lane dies and every write goes through, chunk j is frame j/n of lane j mod n, and the lanes hold nothing else, whatever readers and far end do. |
| BondLanes.TakeTurn | bond-server/bond.go:204-215 | One turn: a dead lane is passed over, a failed write kills its lane, the index moves on and wraps. |
| BondLanes.WriteNextLane | bond-server/bond.go:203-218 | The loop over the lanes is the run of its turns and of what the readers and the far end do between them, and ends with the chunk placed or, after one turn a lane, the splitter stopped. |
| BondLanes.CoversExactly | bond-server/bond.go:204-206 | The turns of one chunk reach every lane if and only if the 64-bit lane index does not wrap during them or the number of lanes divides 2^64. |
| BondLanes.NoLiveLaneMissed | bond-server/bond.go:203-218 | Whatever readers and far end do between the turns, lanes dying included, the chunk ends whole as the last frame of a lane that is alive; where the turns reach every lane, the splitter stops only with all of them dead. |
| BondLanes.LiveLaneMissed | bond-server/bond.go:203-218 | If the turns do not reach a lane and all others are dead, the splitter stops although that lane is alive. |
| BondLanes.LaneTwoMissed | bond-server/bond.go:203-218 | Three lanes with the index at 2^64 - 1, lanes 0 and 1 dead: the splitter stops although lane 2 is alive. |
| BondLanes.SplitChunk | bond-server/bond.go:180-199 | One chunk is read and gets its turns up to the first that goes through, or all of them; the splitter then goes on, or halts, for lack of a lane or because the context is found cancelled. What happened is exactly these events. |
| BondLanes.SplitInput | bond-server/bond.go:179-200 | The chunks one after the other, each with just the turns it needs, until there are no more or one found no lane or the context cancelled. |
| BondLanes.SendFins | bond-server/bond.go:187-194 | What happens is the end of the input and one FIN write a lane; afterwards every lane is dead or, if its write went through, has the FIN, errors notwithstanding. |
| BondLanes.SplitToLanes | bond-server/bond.go:176-201 | The splitter's loop is the run of its chunks, each with just the turns it needs, and then of the FINs; it finishes only with everything read and the context never found cancelled between two chunks, and is left early only after a chunk that found no lane or with the context cancelled. |
| BondLimits.ShortStreamsComplete | bond-server/bond.go:176-265 | Once a stream of fewer than 1024 chunks is delivered, duplicates or not, the far end has passed all of it on if and only if the destination takes every write. |
| BondLimits.SlowLaneStops | bond-server/bond.go:236-239 | On two healthy lanes with every write going through, a far end that gets 1025 frames of one lane first has given up. |
| BondLimits.RepeatStays | bond-server/bond.go:211-214 | A write that reports an error after its last byte sends the chunk again on another lane; the second copy stays in the table for good. |
| BondPair.CancelExactly | bond-server/bond.go:120-174 | An end is cancelled, once, when its splitter or its reassembly has returned, when its lanes are dead and their frames taken, or from outside; the reassembly there is told and nothing else changes. |
| BondPair.CutExactly | bond-server/bond.go:129-135 | Only at a cancelled end, while it reads, is the read cut off, which ends the input, or does the splitter halt. |
| BondPair.OwnSide | bond-server/bond.go:161-172 | The splitter of an end works for one direction and its reassembly for the other. |
| BondPair.OtherSide | bond-server/bond.go:118-174 | The other end does the same with the ends exchanged. |
| BondPair.PairSafety | bond-server/bond.go:118-174 | In every state of both directions together, reassemblies that go on after the cancel included, each passes on a prefix of what was read and its end only with all of it; a read is cut off only at an end cancelled because its reassembly had returned, its lanes were gone, or from outside. |
| BondPair.DeliveredExactly | bond-server/bond.go:118-265 | In every state of both directions a direction is delivered, true end included, if and only if its read was not cut off, the frames merged before the reassembly left are all of them, its table was never full and the destination took every write; under 1024 chunks the table never is. |
| BondPair.ClosesAfterCancel | bond-server/bond.go:229-265 | A run in which the reassembly takes the FIN after its end was cancelled, and delivers. |
| BondPair.LeavesAfterCancel | bond-server/bond.go:229-233 | From the same state it leaves first, and no continuation delivers. |
| BondPair.CutPassedOnAsEnd | bond-server/bond.go:187-194 | A run in which the other direction ends first, the read is cut off, and its FIN makes the far end close as at the end of the stream. |
| Registry.LaneRegistry.constructor | bond-server/main.go:48 | A fresh registry has no sessions. |
| Registry.LaneRegistry.HandleLane | bond-server/main.go:61-99 | One arrival: closed, left waiting, or the last of a session that is then served. |
| Registry.LaneRegistry.ExpireSession | bond-server/main.go:102-114 | One timer, stale or not: the session's lanes are closed and its entry removed. |
| Registry.AcceptedExactly | bond-server/main.go:63-77 | A lane is taken in if and only if it starts with a handshake that announces 1 to 16 lanes. |
| Registry.NamedBy | bond-server/main.go:71-84 | It then belongs to the connection, and counts for the number of lanes, that this handshake names. |
| Registry.RefusedEffect | bond-server/main.go:63-77 | A refused lane is closed and nothing else changes. |
| Registry.ArriveEffect | bond-server/main.go:78-98 | A lane joins those waiting for its connection, last; once they are as many as the first announced they are served in that order and nobody waits; other connections and the closed lanes are untouched. |
| Registry.ExpireEffect | bond-server/main.go:102-114 | After a timer nobody waits under its connection, whoever did is closed, in order, and nothing else changes; a stale timer changes nothing. |
| Registry.SizedAlways | bond-server/main.go:71-92 | In every run a waiting session has fewer lanes than its first announced, a served one exactly as many (1 to 16), all of one connection. |
| Registry.EveryLaneAccounted | bond-server/main.go:61-114 | In every run each lane is waiting, closed or served, together exactly as often as it arrived. |
| Registry.ServedInOrder | bond-server/main.go:78-98 | While a connection does not time out, its lanes are served in arrival order in groups of the announced size and the rest wait, whatever other connections do. |
| Registry.ServedSinceExpiry | bond-server/main.go:78-114 | Over every run with time-outs: what is served since a connection's last time-out and waits now are exactly its lanes that came since, in order and in groups of the announced size; those waiting at the time-out are closed and never served. |
| RoundRobin.ChunkSizeFor | wdtt/dispatcher.go:68-81 | A chunk is 1, 3, 8, 24 or 64 packets, more than 1, 3, 8 and 24 from 101, 301, 701 and 1101 bytes on. |
| RoundRobin.ClosedForm | wdtt/dispatcher.go:330-355 | From a chunk boundary with one chunk size, no pause and no chunk cut short, packet j goes to worker (first + j/k) mod n. |
| RoundRobin.Balanced | wdtt/dispatcher.go:350-355 | Under the closed form no two workers' loads differ by more than one chunk. |
| RoundRobin.FairShare | wdtt-server/raw.go:257-263 | The packets the cursor actually gives to any two workers differ by at most one chunk at every moment. |
| Chunks.WorkerByChunks | wdtt/dispatcher.go:330-355 | From any cursor, whatever the sizes and times: a packet goes to worker (first + chunks filled before it + chunks cut short up to it) mod n. |
| Chunks.NextWorkerExactly | wdtt-server/raw.go:248-263 | With several workers a packet goes to the worker of the packet before it if and only if the chunk was not filled and is less than 15 ms old, or was filled and then 15 ms old and there are two workers; if one of the two is so it goes to the next worker. |
| Chunks.FilledAndLate | wdtt-server/raw.go:251-263 | Two workers: after a chunk filled at 100 ms the packet at 115 ms goes to the same worker again. |
| Dispatcher.PacketDispatcher.Consume | wdtt/dispatcher.go:308-319 | Workers take packets off their queues in any order; each take moves one packet. |
| Dispatcher.PacketDispatcher.ScanFor | wdtt/dispatcher.go:308-319 | The tries go round the workers, consumers at work before each, to the first channel with room when it is tried. |
| DispatcherRuns.ScanMeans | wdtt/dispatcher.go:358-371 | The tries settle on the first channel that has room when tried, and find none if and only if each was full when tried. |
| DispatcherRuns.EveryWorkerTried | wdtt/dispatcher.go:308-319 | When nothing is found, every worker's channel was tried and full at that moment. |
| DispatcherRuns.PutEffect | wdtt/dispatcher.go:345-350 | A packet joins one queue, last; no other queue changes. |
| DispatcherRuns.TakeEffect | wdtt/dispatcher.go:308-319 | A consumer takes the first packet of one queue; no other queue changes. |
| DispatcherRuns.MeanwhileIsTakes | wdtt/dispatcher.go:308-319 | What consumers do between two tries is one take after the other. |
| Dispatcher.PacketDispatcher.constructor | wdtt/dispatcher.go:89 | A fresh dispatcher has no workers and its cursor at the start. |
| Dispatcher.PacketDispatcher.RegisterWorker | wdtt/dispatcher.go:173-179 | A worker joins at the end, its queues empty. |
| Dispatcher.PacketDispatcher.UnregisterWorker | wdtt/dispatcher.go:181-197 | The worker's slot leaves, the cursor is brought back into range and its count cleared. |
| DispatcherRuns.RegisterEffect | wdtt/dispatcher.go:173-179 | A worker joins last with empty queues and nothing else changes. |
| DispatcherRuns.UnregisterEffect | wdtt/dispatcher.go:181-197 | The worker's first slot leaves with its queues, the others keep their order, and a new chunk starts at the same place, taken round if it is past the last worker. |
| Dispatcher.PacketDispatcher.DispatchSend | wdtt/dispatcher.go:330-389 | The ordinary queues: dwell limit, current worker, next with room, or recycled. |
| Dispatcher.PacketDispatcher.Dispatch | wdtt/dispatcher.go:279-390 | One packet, all branches, with every index in range and consumers at work between the tries. |
| DispatcherRuns.RecycledExactly | wdtt/dispatcher.go:279-390 | The whole new state of one packet. It goes into the first queue that has room when tried, whatever consumers take between two tries: a small one first into the priority queues, from the worker in use, or the next after more than 10 ms without a packet, on; then into the ordinary ones, from the worker in use, or the next if the chunk is 15 ms old too, on. It is recycled if and only if there is no worker or each of these was full. The cursor stays with a chunk that is not full, and goes to the worker that took the packet, or past the one that should have. |
| DispatcherRuns.IdleExactly | wdtt/dispatcher.go:279-390 | With no consumer at work meanwhile, it is recycled if and only if every queue it may use is full. |
| DispatcherRuns.NothingLost | wdtt/dispatcher.go:173-390 | Over every interleaving of packets, workers and consumers, between the tries of one packet too, each packet is in exactly one place. |
| DispatcherRuns.CountBounded | wdtt/dispatcher.go:347-372 | The chunk count stays below 64 in every reachable state. |
| DispatcherRuns.QueuesBounded | wdtt/dispatcher.go:308-371 | In every reachable state no queue is longer than its capacity. |
| DispatcherRuns.UplinkByChunks | wdtt/dispatcher.go:285-355 | While each packet above 128 bytes finds room at its first try, whatever the sizes, times and pauses and whatever consumers do: a packet goes to worker (first + chunks filled before it + chunks broken off up to it, by 10 ms without a packet or by 15 ms of age) mod n. |
| DispatcherRuns.UplinkNextWorker | wdtt/dispatcher.go:285-355 | Of two packets one after the other, the second goes to the first one's worker if and only if the chunk was neither filled nor is broken off, or both and there are two workers; to the next if one of the two. |
| DispatcherRuns.UplinkClosedForm | wdtt/dispatcher.go:330-355 | With one chunk size, no pause or cut chunk and room at each first try, packet j of a stream above 128 bytes goes to worker (first + j/k) mod n, whatever consumers do meanwhile. |
| Downlink.Advance | wdtt-server/raw.go:248-263 | The worker in use is picked, or the next if the chunk is 15 ms old; the cursor after it is that of the shared round-robin. |
| Downlink.RawRouter.constructor | wdtt-server/raw.go:195 | A fresh router has no sessions. |
| Downlink.RawRouter.PickDownlinkConn | wdtt-server/raw.go:237-265 | The choice for one packet, none without a session, and the cursor moved on; no other session changes. |
| Downlink.RawRouter.AddWorker | wdtt-server/raw.go:267-278 | A worker joins the session of an address, made if there is none. |
| Downlink.RawRouter.RemoveWorker | wdtt-server/raw.go:280-302 | The worker leaves, the cursor is brought back into range, an empty session is removed. |
| Downlink.ValidAlways | wdtt-server/raw.go:237-302 | In every run each session has a worker, its index is in range and its count below 64. |
| Downlink.RemovedExactly | wdtt-server/raw.go:283-288 | A worker that is there leaves its first place, the others keep their order; no other leaves. |
| Downlink.RegisterEffect | wdtt-server/raw.go:267-278 | A worker joins last, in a session of its own if the address had none; cursor and other sessions stay. |
| Downlink.UnregisterEffect | wdtt-server/raw.go:280-296 | The worker's first place leaves, a new chunk starts at the same place or, past the end, at the first; an empty session goes, others stay. |
| Downlink.PastTheLast | wdtt-server/raw.go:244-246 | A cursor past the last worker starts over at the first. |
| Downlink.OwnPacketsOnly | wdtt-server/raw.go:237-265 | A client's cursor moves with its own packets only. |
| Downlink.DownlinkByChunks | wdtt-server/raw.go:237-265 | Whatever the sizes and times, and whatever other clients do: the next packet for a client goes to the worker as many places on as chunks of its packets have been filled and cut short. |
| Downlink.DownlinkNextWorker | wdtt-server/raw.go:237-265 | Of two packets for a client with none for it in between, the second goes to the first one's worker if and only if the chunk was neither filled nor is 15 ms old, or both and there are two workers; to the next if one of the two. |
| Downlink.DownlinkClosedForm | wdtt-server/raw.go:237-265 | From a chunk boundary with one chunk size and no chunk cut short, the next packet for a client after j of its packets goes to the worker j/k places on, whatever other clients do meanwhile. |
| KeyStore.WrapKeyStore.constructor | wdtt-server/database_bot.go:396-398 | A fresh store has no keys. |
| KeyStore.WrapKeyStore.SetPasswords | wdtt-server/database_bot.go:396-438 | The keys become those of the main and the generated passwords, each name once, empty ones skipped. |
| KeyStore.WrapKeyStore.AddPassword | wdtt-server/database_bot.go:440-457 | The key is added unless its name is there; only the empty password fails. |
| KeyStore.WrapKeyStore.RemovePassword | wdtt-server/database_bot.go:459-475 | The first key of that name is removed, the order of the others kept. |
| KeyStore.PasswordTable.constructor | wdtt-server/database_bot.go:568-571 | A fresh table is empty. |
| KeyStore.PasswordTable.CleanupExpired | wdtt-server/database_bot.go:1302-1323 | Whatever order the walk over the map takes and whatever the clock shows at each row, exactly the expired rows go and the keys are dropped in that order. |
| KeyStore.PasswordTable.CreatePassword | wdtt-server/admin_api.go:230-269 | The first drawn password not taken gets a row and a key; at the limit, or with none left, nothing changes. |
| KeyStore.PasswordTable.DeactivatePassword | wdtt-server/admin_api.go:374-386 | The row is marked and its key removed; an unknown password changes nothing. |
| KeyStore.PasswordTable.ActivatePassword | wdtt-server/admin_api.go:414-427 | The row is unmarked and its key added. |
| KeyStore.PasswordTable.DeletePassword | wdtt-server/admin_api.go:456-480 | The row and its key are removed. |
| KeyStore.PasswordTable.BotDeletePassword | wdtt-server/database_bot.go:991-1016 | The key is removed whether or not there is a row. |
| KeyStore.PasswordTable.RefreshKeys | wdtt-server/database_bot.go:502-510 | The keys are rebuilt from exactly the rows usable when the walk meets them, in whatever order. |
| KeyStore.PasswordTable.ReloadTable | wdtt-server/database_bot.go:512-558 | The table is replaced, cleaned and the keys rebuilt, each row looked at by its own reading of the clock. |
| KeyStore.StartAgrees | wdtt-server/database_bot.go:560-595 | After the keys are built and start-up has cleaned the table, keys and table agree. |
| KeyStore.CleanupAgrees | wdtt-server/database_bot.go:1302-1323 | Removing expired rows in any order keeps keys and table in agreement. |
| KeyStore.CreateAgrees | wdtt-server/admin_api.go:230-269 | Creating a password, or failing to, keeps them in agreement. |
| KeyStore.CreateAdds | wdtt-server/admin_api.go:230-269 | A creation that goes through adds one active row under a new password, unexpired exactly until its days are over, to a table of fewer than ten. |
| KeyStore.RowAgrees | wdtt-server/admin_api.go:374-480 | So do deactivating, activating and deleting any password. |
| KeyStore.ReloadAgreesExactly | wdtt-server/database_bot.go:512-558 | A reload leaves them in agreement if and only if no active row expires between its cleaning and its rebuilding. |
| KeyStore.ReloadGap | wdtt-server/database_bot.go:538-555 | A concrete reload after which an active row has no key. |
| KeyStore.BotDeleteExactly | wdtt-server/database_bot.go:991-1016 | The bot's delete keeps keys and table in agreement if and only if it is not given the main password. |
| KeyStore.MainMustNotBeGenerated | wdtt-server/admin_api.go:381-383 | Were the main password also generated, deactivating it would take the main key away. |
| KeyStore.AgreesAlways | wdtt-server/database_bot.go:396-558 | Every sequence of operations keeps the keys duplicate-free and equal to the main one and those of the rows not deactivated. |
| KeyEffects.AddedEffect | wdtt-server/database_bot.go:440-457 | A password gets a key, last, if it has none; the others keep theirs. |
| KeyEffects.DroppedPlace | wdtt-server/database_bot.go:459-475 | The first key of a name leaves its place, the others keep their order. |
| KeyEffects.DroppedEffect | wdtt-server/database_bot.go:459-475 | Exactly that password has no key any more. |
| KeyEffects.CollectedInOrder | wdtt-server/database_bot.go:410-436 | New passwords get their keys behind those that are there, in the order of the walk. |
| KeyEffects.ActivateEffect | wdtt-server/admin_api.go:414-427 | An activated row is not deactivated, its time unchanged, and its password has a key; all other rows and passwords are as they were; without a row nothing happens. |
| KeyEffects.DeactivateEffect | wdtt-server/admin_api.go:374-386 | A deactivated row stays, marked, its time unchanged, and its password has no key; all others are as they were; without a row nothing happens. |
| KeyEffects.ActivateUndoes | wdtt-server/admin_api.go:374-427 | Activating undoes the deactivation of an active row. |
| KeyEffects.DeleteEffect | wdtt-server/admin_api.go:456-480 | A deleted row and its key are gone, all others as they were; without a row nothing happens. |
| KeyEffects.BotDeleteEffect | wdtt-server/database_bot.go:991-1016 | So with the bot's delete, row or no row. |
| KeyEffects.UpdateEffect | wdtt-server/admin_api.go:306-343 | A row's time changes and nothing else. |
| KeyEffects.CleanEffect | wdtt-server/database_bot.go:1302-1323 | Exactly the rows that are empty or whose time is over when they are looked at (0 is for ever) leave, and exactly their passwords lose their keys. |
| KeyEffects.ReloadEffect | wdtt-server/database_bot.go:512-558 | The rows are those of the file that are not over; keys have the main password and the active rows not over when looked at again. |
| KeyEffects.CreateEffect | wdtt-server/admin_api.go:230-269 | With fewer than ten rows, the first drawn password that is not taken gets an active row for its days and a key, and no other row or key changes. |
| KeyEffects.KeyByLastOperation | wdtt-server/database_bot.go:396-558 | After any sequence of operations a password has a key if and only if the last operation that touched its key left it on, and as at the start if none did. |
| Addresses.DottedUnique | wdtt-server/database_bot.go:654 | Different bytes give different dotted addresses. |
| Addresses.DecimalMeans | wdtt-server/database_bot.go:654 | A number is written in decimal digits with no leading zero. |
| Addresses.FindAddress | wdtt-server/database_bot.go:647-685 | The nested loops return the first free address in scanning order, or nothing. |
| Addresses.NextAddressExactly | wdtt-server/database_bot.go:647-685 | The address given out is unused, of the network and not the server's; there is none if and only if the whole pool is in use. |
| Addresses.FirstInOrder | wdtt-server/database_bot.go:652-684 | It is the first unused one in order of the third number, 0 to 255, and then of the fourth, 1 to 254. |
| Addresses.PoolCount | wdtt-server/database_bot.go:652-657 | Each pool has 65023 addresses. |
| Addresses.DeviceTable.constructor | wdtt-server/database_bot.go:568-571 | A fresh table has no devices. |
| Addresses.DeviceTable.HandleGetConf | wdtt-server/connections.go:179-213 | A known device is changed in place, a new one kept only with keys and an address; the address answered is the one stored. |
| Addresses.DeviceTable.HandleGetConfRaw | wdtt-server/raw.go:388-408 | A new device gets both addresses, a known one the raw address it lacks. |
| Addresses.DeviceTable.HandleAuthRaw | wdtt-server/raw.go:440-451 | A known device gets the raw address it lacks; an unknown one gets nothing. |
| Addresses.AskedIsAnswered | wdtt-server/connections.go:179-205 | A device gets what it asks for unless the pool is used up or no keys could be made, and no other device is touched. |
| Addresses.ConfEffect | wdtt-server/connections.go:179-213 | A device with keys is left alone; another keeps its address or gets the next, and is stored with keys if they could be made and it has an address, without them only if it was stored before. |
| Addresses.RawEffect | wdtt-server/raw.go:388-408 | A new device gets both next addresses, a stored one the raw address it lacks. |
| Addresses.AuthEffect | wdtt-server/raw.go:440-451 | A further connection does the same for a stored device and nothing for another. |
| Addresses.RemovedEffect | wdtt-server/admin_api.go:463-477 | Exactly the named devices leave. |
| Addresses.LoadedEffect | wdtt-server/database_bot.go:512-536 | A loaded table takes the place of the old one. |
| Addresses.AddressesStay | wdtt-server/connections.go:179-205 | Over every run an address once given stays with its device until the device is removed or a loaded table says otherwise. |
| Addresses.StepDistinct | wdtt-server/raw.go:388-451 | Every request, every removal and every reload from a sound file keeps the addresses of a network apart. |
| Addresses.DistinctAlways | wdtt-server/raw.go:388-451 | In every run, reloads from sound files included, no two devices share an address on either network and none has the server's. |
| Election.ElectionAlways | wdtt/group.go:159-184 | For any number of workers and any interleaving at most one is asking, nobody asks after a delivery, and the token is free if and only if nothing was delivered and nobody holds it. |
| Election.AsksExactly | wdtt/group.go:158-161 | A worker that goes into its session asks if and only if the configuration is wanted, has not been sent and the token is free; the token is then taken. |
| Election.SettlesExactly | wdtt/group.go:173-184 | An answer is published for good, no answer frees the token, and a worker that did not ask changes nothing. |
| Election.ExitEffect | wdtt/group.go:153-156 | A worker that leaves does so from the top of its loop and changes nothing else. |
| Election.NextAsks | wdtt/group.go:158-184 | In every run, as long as the configuration has not come and nobody is asking, the next worker to go into its session asks. |
| RingBuffer.PacketRing.constructor | amneziawg-go/conn/bind_windows.go:34-43 | A fresh ring is empty. |
| RingBuffer.PacketRing.PushPacket | amneziawg-go/conn/bind_windows.go:45-55 | The slot handed out and the new words, or the panic with nothing changed. |
| RingBuffer.PacketRing.ReturnPackets | amneziawg-go/conn/bind_windows.go:57-63 | The new words, an empty ring left alone. |
| RingBuffer.PushExactly | amneziawg-go/conn/bind_windows.go:45-55 | However far the words have wrapped, a push panics if and only if all 1024 slots are out, and otherwise hands out one that is not. |
| RingBuffer.ReturnExactly | amneziawg-go/conn/bind_windows.go:57-63 | Giving slots back is right if and only if no more are given back than are out and it is not none of a full ring. |
| RingBuffer.ReturnNoneOfFull | amneziawg-go/conn/bind_windows.go:61-62 | A concrete full ring whose mark is cleared by returning no slots. |
| RingBuffer.PushKeeps | amneziawg-go/conn/bind_windows.go:335-353 | A pushed slot is never one the kernel still has a request for, posts it refused included. |
| RingBuffer.PanicExactly | amneziawg-go/conn/bind_windows.go:45-48 | The panic is reached exactly by a push while all 1024 slots are out. |
| RingBuffer.NeverPanics | amneziawg-go/conn/bind_windows.go:292-471 | No run of opening, receiving and sending reaches the panic, the full mark stays exact, and the next slot is always one the kernel does not hold. |
| RingBuffer.SendExactly | amneziawg-go/conn/bind_windows.go:437-485 | In every run a send does nothing if and only if all 1024 slots are out and no completion is found, before or after waiting; otherwise the completed slots are given back, oldest first, and one slot is pushed and posted unless refused. |
| RingCopy.StepKeeps | amneziawg-go/conn/bind_windows.go:355-417 | Every step keeps completed packets in their slots until they are collected. |
| RingCopy.CollectExactly | amneziawg-go/conn/bind_windows.go:391-417 | In every run completions are collected oldest first, and a packet is copied if and only if the next post is accepted and it fitted its slot of 2016 bytes. |
| RingCopy.CopyExactly | amneziawg-go/conn/bind_windows.go:396-417 | The address read and the bytes copied, each at its moment, are the packet's own or, once the request posted on the same slot has been filled, that one's address and its bytes over the packet's, cut to the packet's length and the caller's room; refused posts included. |
| RingCopy.NothingCopied | amneziawg-go/conn/bind_windows.go:396-413 | A packet given up after an error is not copied, and nothing is copied that was not collected and its address read. |
| RingCopy.IntactExactly | amneziawg-go/conn/bind_windows.go:396-417 | With no post refused, address and bytes are the packet's own while at most 1023 further requests have been filled since its own, and after that the bytes are those of the request 1024 later over its own. |
| RingCopy.Overwritten | amneziawg-go/conn/bind_windows.go:396-417 | A run in which 1024 packets arrive between collecting and copying one: the last one's address, and its bytes over the packet's. |
| RingCopy.Mixed | amneziawg-go/conn/bind_windows.go:396-417 | They arrive between address and bytes: the packet's address with the later bytes. |

## Left out

- Cryptography: AEAD, HKDF and key names are parameters with the laws the framing and the key store need (sealing is invertible and adds 16 bytes, key names are distinct).
- Sockets, TURN, DTLS, WireGuard, TUN devices, NAT and shell commands: foreign calls.
- Credential chains, captchas, the Telegram bot, the admin HTTP layer and JSON persistence: only the locked changes they make to the database are events here.
- `openflux`, `sing-box`, `olcrtc` and the command-line wiring: configuration and lifecycle.
- `setSrcControl` and the byte layout of control messages: a control block is an optional segment size.
- The reset of the replay window when a server connection changes its key (wdtt-server/obfs.go:407-447), and the choice of a key for the first packet: `Tunnel` models the steady state of one key.
- `canConnectAndBind` and the reconciliation of device owners: they decide who may ask, not what is handed out.
- Shutting workers down and the channel lifecycle in wdtt-server/raw.go: one pick is one step.
- GsoCoalesce.CoalesceMessages: buffers are values with a capacity, so two messages sharing one backing array is not expressible.
- GroSplit.SplitCoalescedMessages: the slots' buffers are values, so two slots sharing one backing array is not expressible.
- BondSystem.BondSafety: sequence numbers are those of a stream shorter than 2^64 chunks; the splitter's counter does not wrap.
- BondSinks.ClosedWithSink: the stream has fewer than 2^64 chunks, as its sequence numbers can tell apart.
- DispatcherRuns.UplinkByChunks: that each packet finds room at its first try is a hypothesis; what happens otherwise is stated packet by packet in `DispatcherRuns.RecycledExactly`.
- DispatcherRuns.UplinkClosedForm: the chunk boundary, one chunk size and the absence of pauses and cuts are hypotheses; `DispatcherRuns.UplinkByChunks` needs none of them.
- KeyStore.AgreesAlways: the main password is not also a generated one nor given to the bot's delete, and no active row expires within a reload; each is shown necessary by its own lemma.
- Addresses.DistinctAlways: tables start, and are loaded, with their addresses apart; a hand-edited file is not repaired by the code.
- RingBuffer.NeverPanics: the kernel completes the requests of one ring in order; so in `RingCopy`.
- TunnelRuns.HandsUpAccepted: a failed read, and on the server a failed unwrap, is reported to the caller as an error; here the caller reads on.
- Election.ElectionAlways: what a session does, other than coming back with or without the configuration, is left open.
- BondPair.DeliveredExactly: the deadline a cancelled end sets on its connection shows as a destination whose writes fail from some number on; when it takes effect is not tied to the cancel.
