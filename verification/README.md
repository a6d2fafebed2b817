# EVRT: a Dafny model of the remote-desktop transport and tile codecs

This project models the algorithmic core of the EVRT remote desktop in Dafny and proves what that core is
for: frames survive packet loss exactly when the parity allows it, the tile encoder is lossless, replicas
that are updated by deltas agree, fused in-place passes equal their two-pass references, and the session
controllers keep their bounds over every run.

`dafny verify dfyconfig.toml` checks all of it. The modules, bottom up:

| modules | part of the system |
|---|---|
| `Bytes`, `XorParity` | integers of fixed width, byte orders, XOR and XOR over index sets |
| `EvrtWire`, `EvrtPacketizer`, `EvrtFec`, `EvrtVideo` | the EVRT sender: datagrams, fragmentation, parity groups |
| `FrameAssembly`, `Availability`, `ReceiveBuffer`, `Reassembler` | the receiver: assembly of frames, the byte account, the reassembler |
| `Streams`, `StreamModel`, `BufferedStream` | many frames in flight: laws of every run, the model of the receiver with unlimited room, and the exact one with the byte account |
| `FrameChain`, `Delivery` | whole transfers, frame by frame, over a network that loses, repeats and reorders |
| `Arrivals`, `Reordering`, `ReorderedRuns`, `LostFrames` | what comes out, in terms of what arrives: tolerated reordering, and frames lost for good |
| `GroupFec` | the second parity scheme, by residue classes |
| `Zrle`, `TileGrid`, `TileCodec`, `TileStages`, `TileChoice`, `TileClassifier`, `TilePipeline` | the tile encoder as a chain of FIFO stages, with a decoder written from the wire format |
| `ScrollOrder`, `ScrollDetector` | the order of candidate shifts; the software and the hardware form of the scroll detector |
| `Apf`, `ApfGrid`, `ApfSync` | the attention priority field: codec, coarse grids, host and client replicas |
| `DiffScan`, `Attention` | the attention map builder |
| `PathSwitch`, `PathLaws`, `PathTable` | the race between UDP and relay and the later switch: the machine and its invariants, what makes it switch, and the same machine read component by component |
| `Rtt`, `Pacing` | path degradation, send pacing, bandwidth verdict |
| `ColorConv`, `Downscale` | BGRA to I420 and NV12, nearest-neighbour downscaling |

Main results:

- **Delivery.** `Delivery.DeliverFrame`: a frame of any admissible size is cut up, protected and sent, and its
  datagrams arrive in any order, any number of times, or not at all. The receiver emits exactly the payload,
  once, if every 8-packet group lacks at most one data packet and lacks none unless its parity arrived;
  otherwise it emits nothing. `Delivery.DeliverSession` says the same of whole sessions of consecutive frames:
  the output is exactly that of a machine over frames. The rule one expects of it, that among the frames that can
  be rebuilt every key frame comes out and every delta frame behind a frame that came out, does not always hold:
  `Delivery.BadStartRun` is a session whose first key frame is incomplete and whose next four deltas come out with
  nothing to build on. `Delivery.SessionRule` says exactly when it holds: if and only if no delta that can be
  rebuilt comes at most four frames behind an incomplete beginning with room for all that arrived since.
- **Frames in flight.** `BufferedStream.ReceiveExactly`: packets of any number of frames at once, in any order, with
  losses and duplicates. The receiver emits exactly what a model says that knows of each frame only which of its
  packets were let in and how many bytes that makes known: a frame comes out with the packet by which it can be
  rebuilt, if there is room for it and it is decodable then. The model also says which frames go when the 24 MiB
  are full. `BufferedStream.RoomSuffices`: if any five consecutive frames fit, the account can be ignored.
  `LostFrames.ReceiveDespiteLoss`: of one key frame and its deltas, with frames lost for good among frames that
  overlap, a frame comes out if and only if it and all before it have their turn, that is, enough of the frame
  arrives before enough of any newer one and before any data packet more than the window ahead.
- **Reordering.** The comments of the source promise that reordering inside the window does not break the stream. That does not
  hold, with nothing lost: in `ReorderedRuns.SwappedDeltas` two one-packet deltas change places and neither comes
  out, and in `ReorderedRuns.OvertakenDelta` one packet of a key frame overtakes one of a delta, which then never
  comes out. `Reordering.ReceiveReordered` says exactly when it holds, for every stream: all frames that can be
  rebuilt from what arrives come out, once and in order, if and only if no data packet runs ahead by more than the
  window of such a frame that is not done yet, frames become complete in order, and every such frame can at some
  time be rebuilt from what arrived since the last data packet of a newer key frame.
- **Bounded memory.** On arbitrary packets the frames of `Reassembler.ChannelReassembler` hold at most 24 MiB of
  payload, its account is exactly the sum of its frames, and those lie inside the reorder window. Parity is outside
  this account and has no bound, although the comments of the source call the leak prevented: by
  `BufferedStream.ParityPilesUp` n copies of one parity packet leave n entries, for frame numbers any distance ahead.
  `BufferedStream.ParityLeaves` says exactly which packets remove an entry, and `BufferedStream.ParityAhead` that
  none is kept for a frame behind the window.
- **Delta chains.** That every emitted delta directly follows the frame before it does not hold when packets
  of different frames are reordered: `Streams.StaleBaseRun` is a stream on which delta 3 is emitted on top of
  frame 2, which was withheld. `Streams.LawHolds` and `Streams.ReceiveStream` say exactly when it does hold, in
  terms of the state before each packet, for the first output as well as for later ones.
- **Residue-class parity.** `GroupFec.Recover` and `GroupFec.RepairGroup`: a lost slot is filled if and only if it
  is the only loss of its class and that class's repair arrived, and with what. The header comment of
  `src/evrt2_fec.rs` promises that two repair packets recover any two losses; `GroupFec.TwoLosses` says exactly
  when they do, and `GroupFec.TwoRepairsMissTwoLosses` is a run in which they do not.
- **Lossless tiles.** `TilePipeline.EncodeFrame`: for all frames of at most 65536 tiles, decoding the packet
  against the previous frame gives the current frame. The packet says of each tile what the two frames call for:
  nothing if it is unchanged, one colour if all its pixels changed alike, the nearest shift by at most 32 rows if it
  moved, its XOR otherwise, and each XOR in its tightest form (`Zrle.Encode`). One exception, in `TileChoice.Chosen`:
  a tile at the edge that does not fill its 64-byte beats never gets one colour, because the solid test runs into the
  zero padding.
- **Detectors.** `ScrollDetector.DetectBoth`: the early-skip, first-match form and the unrolled,
  last-write-wins form agree on every input, and report the nearest shift.
- **Replicas.** `ApfSync.RunSession`: after any session, with any losses, the client holds the 16-level value
  of every tile of the host's last map except those that lost packets changed since; no loss, or a delivered
  snapshot, means full agreement.
- **Attention.** `Attention.AttentionMapBuilder.Compute` and `Attention.RunSession`: the in-place pass leaves
  the stored frame equal to the input, its map equals that of a builder which keeps every frame, and every value of
  the map is the stated sum of motion, nearness and surprise.
- **Path switch.** `PathSwitch.HostIsSafe`, over every interleaving: one session in the encode loop, one
  owner of the relay pair, at most one switch, only after the grace window and after its ACK.
  `PathLaws.GraceWindow` says exactly which HELLO can still make the host switch: one that was left unpolled when the
  window ended; `PathLaws.OnlyAttemptsSwitch`, that nothing queued before the session began ever does. That both sides
  are on the same path does not hold. The client can be on the relay alone, in the race or later
  (`PathSwitch.RaceSplitsThePaths`, `PathSwitch.StaleAckSplitsThePaths`), and `PathSwitch.SplitIffStaleAck` says
  exactly when that can still happen; the host can be on the relay alone, after a switch or because its relay
  session won the race (`PathSwitch.LatePollSplitsThePaths`, `PathSwitch.RelayWinSplitsThePaths`), and then the
  client can follow (`PathSwitch.SwitchedAhead`).
- **Colour.** `ColorConv.BgraToI420`, `ColorConv.BgraToNv12`: every luma byte is within one step of the BT.601 signal
  of its pixel, every chroma byte within one and a half of that of its block.
- **Wire formats.** `EvrtPacketizer.Packetize`, `EvrtVideo.PacketizeVideoWithFec`, `Apf.EncodeU4`, `Apf.EncodeDelta` and
  `TilePipeline.EncodeFrame` say of what they send, byte by byte, what stands where.
- **Coarse grids.** `ApfSync.SnapshotLookup`: what the client reads for any tile at any scale. The one-byte tile
  size carries the scale only up to 7; `ApfGrid.ScaleEightMisreads` is a frame for which that matters.

Reading notes:

- Bytes and fixed-width integers are subset types of `int`. `f32` priorities, ratios and intervals are `real`;
  `round` is `floor(x + 1/2)`. The truncated HMAC of a session is an arbitrary function of the packet body
  (`EvrtWire.Auth.Keyed`); an absent or invalid token is `Plain`.
- A record of kind SOLID carries the first pixel of the XOR of the two frames, because that is what the
  classifier stores (fpga/evrtck_sim.cpp:214-225), although the field's comment calls it a packed colour. The
  model decoder therefore XORs it into the previous frame. SCROLL and DELTA also read the untouched previous frame.
- Clocks, sockets and channel errors are inputs: `sendOk`, `arrives`, `wide` (whether the processor has the
  32-lane compare), the events of `PathSwitch`.
- `Reassembler.ChannelReassembler` has a ghost flag `honest`: it stays set while every packet came from the
  sender. Memory safety and the structural invariant are proved for arbitrary packets, the statements about
  contents while the flag is set.
- Where a preceding assertion of the source fixes a size (a map with one entry per tile, even plane sizes, a
  full frame buffer), the model has it as a precondition.

## Model

| member | source | states |
|---|---|---|
| EvrtWire.ParseExact | src/evrt.rs:105-143 | `parse` accepts a buffer as packet p if and only if it is, byte for byte, the datagram built from p, within the MTU and with a valid fragment number |
| EvrtWire.ParseAuthenticatedExact | src/evrt.rs:145-163 | the same with a tag: acceptance means the exact tagged datagram of the returned packet, for any MAC function |
| EvrtWire.DatagramLaidOut | src/evrt.rs:168-226 | every datagram byte by byte: magic, version 3, type, flags, frame number, index, count and time at bytes 0 to 23, high bytes first, then the payload and on keyed sessions 16 bytes of tag |
| EvrtWire.SendReceive | src/evrt.rs:168-226 | whatever is built within the payload limit fits 1200 bytes and is read back unchanged |
| EvrtPacketizer.ChunksJoin | src/evrt.rs:560-594 | the chunks of a payload, joined in index order, are the payload |
| EvrtPacketizer.PacketizeWithLimit | src/evrt.rs:560-594 | nothing exactly for an empty payload, a zero limit or too many packets; otherwise packet i carries chunk i with the true 16-bit index and count |
| EvrtPacketizer.Packetize | src/evrt.rs:519-558 | an empty list exactly for empty frames and for those of more than 16384 pieces of 1176 bytes, or 1160 when keyed; piece i is laid out with index i, the true count and bytes i * size on; every datagram is at most 1200 bytes and parses back; the chunks join to the payload |
| EvrtPacketizer.CountWithinLimit | src/evrt.rs:575-578 | the packet count exceeds its limit exactly when the payload exceeds limit times chunk size |
| EvrtFec.XorGroup | src/evrt.rs:664-671 | the accumulator loop computes the XOR of the zero-padded packets of the group and of their lengths |
| EvrtFec.BuildFecPackets | src/evrt.rs:633-691 | one parity datagram per group of eight, in order, skipping exactly the groups whose parity does not fit |
| EvrtFec.FecPayloadExact | src/evrt.rs:694-712 | parity metadata is parsed from a payload if and only if the payload is its encoding and the group size is 1 to 8 |
| EvrtFec.FecPayloadLaidOut | src/evrt.rs:633-704 | the parity payload byte by byte: first index, number of packets, XOR of their lengths, XOR of their zero-padded bytes as long as the longest |
| XorParity.XorBits | src/evrt.rs:664-671 | XOR sets exactly the bits in which the two numbers differ |
| EvrtFec.CountSeen | src/evrt.rs:724-735 | the seen flags and their count are those of the distinct group members among the entries |
| EvrtFec.FecRecoverOne | src/evrt.rs:720-763 | on arbitrary entries and metadata: nothing unless exactly one member is absent and the length is plausible, else the absent index and the XOR of parity and entries |
| EvrtFec.MissingIndexFits | src/evrt.rs:722-742 | the saturating group end never leads to an index beyond 16 bits |
| EvrtFec.RecoveryExact | src/evrt.rs:720-763 | with genuine survivors in any order and listed any number of times, recovery returns member m with its exact payload if and only if m is the only one missing and the survivors that are listed an even number of times add up to nothing |
| EvrtFec.RecoveryOfDistinct | src/evrt.rs:720-763 | with distinct indices nothing cancels: recovery succeeds if and only if exactly one member is missing, and yields that member |
| EvrtFec.RepeatedEntryCancels | src/evrt.rs:727-755 | what cancelling does: for any two packets of equal length, a survivor listed twice makes recovery return an empty packet |
| EvrtVideo.AllGroupsProtected | src/evrt.rs:283-319 | with the chunk size of the video sender the "group too large" branch is never taken: every group gets its parity |
| EvrtVideo.PacketizeVideoWithFec | src/evrt.rs:270-323 | data and parity datagrams, byte by byte: pieces of 1171 bytes, or 1155 when keyed, and for frames of two or more one parity datagram for each eight of them; all fit the MTU and read back, chunks join to the payload, nothing exactly for empty or oversized payloads |
| FrameAssembly.CompleteJoins | src/frame_queue.rs:437-473 | the counter reports completeness exactly when every slot is filled, and then the parts join to the sent frame |
| FrameAssembly.PresentParts | src/frame_queue.rs:706-713 | the entries handed to recovery are exactly the filled members of the group, each once, in index order |
| FrameAssembly.RecoverPart | src/frame_queue.rs:699-715 | with genuine parts, a part is recovered if and only if it is the only missing one of its group, and equals the part sent |
| Availability.OneRoundSuffices | src/frame_queue.rs:685-732 | one pass over the parity at hand makes available everything that the arrivals determine |
| Availability.AfterData | src/frame_queue.rs:625-645 | storing a packet and one recovery round account exactly for its arrival |
| Availability.AfterParity | src/frame_queue.rs:670-680 | one recovery round accounts exactly for the arrival of a parity packet |
| Availability.CompleteIffRecoverable | src/frame_queue.rs:736-744 | all slots are filled if and only if the loss pattern is repairable |
| Reassembler.ChannelReassembler.DropFrame | src/frame_queue.rs:813-825 | exactly that frame and its parity are forgotten, and the account shrinks by exactly its bytes: the saturating subtraction never saturates |
| Reassembler.ChannelReassembler.DropOlderThan | src/frame_queue.rs:827-841 | exactly the older frames and parity are forgotten, and their number is returned |
| Reassembler.ChannelReassembler.DropOldestExcept | src/frame_queue.rs:843-854 | the oldest other frame goes, or nothing changes when there is none |
| Reassembler.ChannelReassembler.ReserveBuffer | src/frame_queue.rs:856-886 | succeeds exactly if the bytes fit beside all frames, or for a key frame beside its own; success leaves room under the 24 MiB cap and keeps the frame, failure drops it; exactly those other frames stay that do when the oldest go first until the bytes fit or none is left, and parity goes only with its frame |
| ReceiveBuffer.OneFrameFits | src/frame_queue.rs:856-886 | a frame of the sender never exhausts the receive buffer by itself |
| ReceiveBuffer.TotalRemove | src/frame_queue.rs:813-825 | the account of all frames is that of one and of the others |
| ReceiveBuffer.SurvivorsTwice | src/frame_queue.rs:868-874 | making room first for one part and then for one more evicts the same frames as making room for both at once |
| ReceiveBuffer.SurvivorsAreNewest | src/frame_queue.rs:856-886 | the frames that stay are the newest, as many as fit into 24 MiB beside the bytes needed, and not one fewer |
| Reassembler.ChannelReassembler.StorePart | src/frame_queue.rs:625-633 | a stored part is added to its slot and to the account, which is always the sum of the stored frames and at most 24 MiB |
| Reassembler.ChannelReassembler.TryFecRecover | src/frame_queue.rs:685-732 | keeps the invariant on arbitrary parity; for a frame of the sender in which one part can be recovered from the parity received, that part is stored and counted, a key frame making room at the cost of the oldest others, or the delta frame is given up; if there is no such part nothing changes |
| Reassembler.ChannelReassembler.FinalizeFrame | src/frame_queue.rs:736-800 | emits exactly the complete frames that are key frames or, with no loss pending, direct successors of the last completed one, with the sent contents; a loss is pending afterwards exactly if a complete frame was withheld |
| Reassembler.ChannelReassembler.Admit | src/frame_queue.rs:541-598 | for any packet: it is let in exactly if it is well-formed, not stale, inside the reorder window, not a delta while a loss is pending and not the one that reveals a loss; and which frames are forgotten in each case |
| Reassembler.ChannelReassembler.StorePacket | src/frame_queue.rs:600-633 | for any packet: a mismatched count ends the frame, a duplicate changes nothing, a packet that fits goes into its slot and nothing else changes, and one that does not fit is stored only for a key frame |
| Reassembler.ChannelReassembler.OnPacket | src/frame_queue.rs:541-646 | keeps the invariant on arbitrary packets; anything emitted is a sent frame, exactly when it completes and is decodable; a frame of the sender gets its room or is given up, with exactly the other frames evicted that have to go, it is completed exactly if it can then be rebuilt, and otherwise holds exactly what the packets that arrived determine |
| Reassembler.ChannelReassembler.OnFecPacket | src/frame_queue.rs:651-681 | the same for parity packets; stale or unreadable ones change nothing, and one of a frame that is not in flight is appended to the list kept for that frame, copies included |
| Delivery.DeliverFrame | src/evrt.rs:270-323 | one frame from the sender through a lossy network to the receiver: the output is the payload, once, if and only if the losses are repairable |
| Delivery.DeliverSession | src/frame_queue.rs:541-800 | many frames of any admissible sizes, one after the other, each with any order, repetition and loss of its datagrams, with any start: the output is exactly that of the frame-level machine, which gives up a delta frame that does not fit beside the open frames |
| Delivery.SessionRule | src/frame_queue.rs:736-800 | in a session with any start, every frame comes out exactly if it can be rebuilt and is a key frame, or its predecessor came out, or nothing had arrived before it, if and only if no delta of the session is premature: rebuilt while no key frame, and not the first frame, was, at most four frames behind the incomplete frame that began the session, and with room for all that arrived since |
| Delivery.BadStartRun | src/frame_queue.rs:791-799 | real packets through sender and receiver: one of two packets of key frame 0 and five whole deltas; exactly deltas 1 to 4 come out |
| FrameChain.ChainOfFrames | src/frame_queue.rs:758-799 | the same equivalence on the frame-level machine, for every sequence of frames |
| FrameChain.KeyFramesComeOut | src/frame_queue.rs:758-766 | with any start a key frame comes out if and only if it can be rebuilt |
| FrameChain.BadStart | src/frame_queue.rs:576-593 | which frames the frame-level machine lets through for a beginning with an incomplete key frame: the deltas until that frame leaves the reorder window |
| Streams.ReceiveStream | src/frame_queue.rs:541-681 | packets of any frames in any order with losses and duplicates: every output is a sent frame, ids strictly increase, every step obeys the law of Streams.LawHolds; all deltas but a first output follow their predecessors if and only if none was emitted off base, and no output is a delta without its predecessor if and only if none was emitted off base or before any frame was completed |
| Streams.LawHolds | src/frame_queue.rs:595-598 | an emitted delta follows the last output if and only if the receiver was neither off base nor without a completed frame; off base is entered exactly by letting in a data packet of a key frame, without completing it, while a loss is pending and the last completed frame was withheld, and left exactly by an emission or another loss |
| Streams.FollowIff | src/frame_queue.rs:768-799 | over a run that obeys the law, both equivalences between the output and the states before the deltas |
| Streams.KeyOrderIsSafe | src/frame_queue.rs:595-598 | if no packet of an older frame arrives behind a packet of a key frame, no delta is emitted off base |
| Streams.StaleBaseRun | src/frame_queue.rs:768-799 | a stream on which the receiver emits key frame 0 and then delta 3, although frame 2 was withheld |
| BufferedStream.ReceiveExactly | src/frame_queue.rs:541-886 | any interleaving of packets of any frames of any admissible sizes: the output is exactly that of the model, in which a frame comes out with the packet by which the packets let in for it suffice, if there is room for it and it is decodable then |
| BufferedStream.HandData | src/frame_queue.rs:541-646 | one data packet moves receiver and model alike, for all frames in flight at once, with the bytes held of each, and emits exactly when the model does |
| BufferedStream.HandParity | src/frame_queue.rs:651-681 | the same for one parity packet |
| BufferedStream.RoomSuffices | src/frame_queue.rs:856-886 | over every run: if any five consecutive frames fit the buffer together, the output is that of the model without a byte account |
| BufferedStream.ParityPilesUp | src/frame_queue.rs:670-681 | on arbitrary packets: n copies of one parity packet that is not stale leave n entries, and the byte account does not move |
| BufferedStream.ParityLeaves | src/frame_queue.rs:827-830 | parity of a frame is removed if and only if the frame is completed or given up, a data packet that is let in puts it behind the bound, or one reveals a loss; otherwise it stays |
| BufferedStream.ParityAhead | src/frame_queue.rs:657-669 | over every run no parity is kept for a frame behind the reorder window |
| Reordering.ReceiveReordered | src/frame_queue.rs:573-598 | for every stream of packets of a session: the output is exactly the frames that can be rebuilt from all that arrives, in order and once each, if and only if nothing runs ahead of such a frame by more than the window before it is done, at every moment the frames that are done are the first ones, and every frame that can be rebuilt is done at some time |
| Arrivals.DoneIsWhole | src/frame_queue.rs:595-598 | a frame that can be rebuilt from what arrived since a newer key frame began can be rebuilt from all arrivals, but not the other way round |
| Reordering.TrackStep | src/frame_queue.rs:541-681 | under these conditions one packet concerns a complete frame or is let in, no loss becomes pending, and it completes the next frame or none |
| Reordering.NothingMore | src/frame_queue.rs:541-681 | whatever arrives, in any order: once all frames that can be rebuilt are completed, no packet completes another |
| Reordering.TooEarly | src/frame_queue.rs:791-797 | the first frame that is complete too early is taken for the last completed one |
| Reordering.LeftBehind | src/frame_queue.rs:576-592 | a data packet that is too far ahead of the frame that is due makes the receiver forget that frame for good |
| ReorderedRuns.SwappedDeltas | src/frame_queue.rs:573-575 | a run in which two deltas of one packet each change places inside the window and neither comes out |
| ReorderedRuns.OvertakenDelta | src/frame_queue.rs:595-598 | a run inside the window in which a packet of key frame 2 arrives between the two packets of delta 1: frames 0 and 2 come out and frame 1 does not |
| LostFrames.ReceiveDespiteLoss | src/frame_queue.rs:541-800 | one key frame and its deltas, with overlap, reordering, duplicates and frames lost for good: if the key frame has its turn, a frame comes out if and only if it and all before it have theirs, each once and in order, and nothing else comes out |
| LostFrames.StaysStuck | src/frame_queue.rs:768-799 | once a loss is pending, or the frame after the last completed one has left the window, no packet of a delta makes a frame come out again |
| LostFrames.MissesTurn | src/frame_queue.rs:573-598 | a frame that is not complete when a newer one is, or when a data packet is too far ahead, never has its turn |
| GroupFec.XorInto | src/evrt2_fec.rs:69-76 | the longer length, and the XOR of both zero-padded strings |
| GroupFec.EncodeRepairs | src/evrt2_fec.rs:112-136 | repair r of k carries number r, covers exactly the indices that leave remainder r, in order, and is the XOR of those packets, zero-padded to the longest of all |
| GroupFec.TryRepair | src/evrt2_fec.rs:164-188 | a repair is used exactly when one packet it covers is missing; then the empty slots get fewer and slots outside the group are untouched |
| GroupFec.Recover | src/evrt2_fec.rs:151-190 | terminates; for a group at any slots of a frame and any length bounds, a lost slot is filled if and only if it is the only loss of its class and a repair of the class is at hand, with the packet zero-padded or cut to the bound or the longest packet; nothing else changes |
| GroupFec.RebuiltIsWhole | src/evrt2_fec.rs:185-186 | the filled slot equals the packet if and only if the bound, capped by the longest packet, is its length |
| GroupFec.RepairGroup | src/evrt2_fec.rs:112-190 | encoding, any losses, any sublist, order and repetition of repairs and any length bounds together: the exact contents of every slot |
| GroupFec.RepairExactly | src/evrt2_fec.rs:112-190 | with the true lengths every slot that is filled holds its packet |
| GroupFec.RepairsAll | src/evrt2_fec.rs:138-190 | a run that recovers every packet exactly when no class has two losses and each class with a loss has its repair |
| GroupFec.TwoLosses | src/evrt2_fec.rs:112-190 | a run with any two losses and all repairs: both packets come back if and only if their indices differ modulo k, otherwise neither does |
| GroupFec.TwoRepairsMissTwoLosses | src/evrt2_fec.rs:14-21 | a run on any group of six or eight packets with packets 0 and 2 lost and both repairs at hand: neither comes back |
| GroupFec.SessionRepair | src/evrt2_session.rs:463-493 | the receiver rebuilds the covered slots of a group that starts anywhere in the frame |
| GroupFec.StripsPadding | src/evrt2_session.rs:190-196 | the length prefix, two bytes, high byte first, gives the chunk back from every padded copy of its unit and from no shorter one |
| GroupFec.StrippedSays | src/evrt2_session.rs:190-204 | a chunk is read from a unit exactly if the first two bytes give its length and it follows in full |
| GroupFec.RepairUnits | src/evrt2_session.rs:351-399 | with the padded bounds that the session uses, every slot that is filled yields its chunk |
| Zrle.DecodeAppend | src/evrtck.rs:2749-2781 | decoding is compositional: two decodable streams decode to the concatenation |
| Zrle.RecordReads | src/evrtck.rs:2749-2781 | the two records in numbers: tag 0 and tag 1, each with a length of two bytes, low byte first |
| Zrle.WriteZeros | fpga/evrtck_sim.cpp:260-265 | a zero run of any length, split at 65535, decodes to that many zeros |
| Zrle.WriteLiteral | fpga/evrtck_sim.cpp:278-287 | a literal of any length, split at 65535, decodes to itself |
| Zrle.LiteralEnd | fpga/evrtck_sim.cpp:268-277 | the literal ends at the first run of four zeros or at the end |
| Zrle.Encode | fpga/evrtck_sim.cpp:251-290 | terminates, decodes back to its input for every byte string, and is as tight as can be: a byte is in a zero record exactly if it is among four zeros in a row, or all bytes are zero, and neighbouring records are of one kind only after a full one of 65535 |
| TileChoice.ChosenOnce | fpga/evrtck_sim.cpp:211-245 | the two frames determine the record of each tile, up to what a delta holds beyond the tile |
| TileGrid.TileOfPosition | fpga/evrtck_sim.cpp:68-85 | every position of the frame lies in one tile of the grid, at a row and column inside the clipped tile |
| TileGrid.PositionOfTile | fpga/evrtck_sim.cpp:79-85 | every row and column of a clipped tile is a position of the frame that belongs to that tile only |
| TileGrid.TileIdJoins | fpga/evrtck_sim.cpp:76-78 | tile numbers are exactly the pairs of tile coordinates, row by row |
| TileCodec.ApplyRestores | fpga/evrtck_sim.cpp:310-352 | if every record restores its tile, the decoded frame is the current frame |
| TileCodec.RecordRoundTrip | fpga/evrtck_sim.cpp:335-349 | a record followed by anything parses to the record and the rest |
| TileCodec.RecordReads | fpga/evrtck_sim.cpp:335-349 | the three records in numbers: tags 1, 3 and 2, colour, signed shift, and length of four bytes with the compressed delta |
| TileCodec.SetMapBitReads | fpga/evrtck_sim.cpp:333-333 | setting a tile's bit sets that bit and no other |
| TileCodec.BodyRoundTrip | fpga/evrtck_sim.cpp:331-350 | with the bitmap of the dirty tiles the body parses back to all records |
| TileCodec.PacketRoundTrip | fpga/evrtck_sim.cpp:309-352 | header, bitmap and body decode to the frame number and the current frame |
| TileStages.ReadTile | fpga/evrtck_sim.cpp:79-93 | the gathered buffer is the tile's rows, packed, zero beyond |
| TileStages.FrameReader | fpga/evrtck_sim.cpp:70-108 | the stage emits, tile by tile, the beats of both frames, zero-padded, with tile number and last mark |
| TileStages.BeatDiffers | fpga/evrtck_sim.cpp:125-126 | the eight word comparisons detect exactly a difference in the 64 bytes |
| TileStages.DirtyMeansChanged | fpga/evrtck_sim.cpp:118-130 | some beat differs if and only if the tile changed: padding never counts |
| TileStages.DirtyDetector | fpga/evrtck_sim.cpp:112-132 | all beats are passed on in order and exactly the changed tiles are reported dirty |
| TileClassifier.CollectDelta | fpga/evrtck_sim.cpp:192-209 | consumes exactly one tile's beats; for a dirty tile the buffer is the XOR of both tiles, zero beyond |
| TileClassifier.IsSolid | fpga/evrtck_sim.cpp:215-221 | true if and only if all pixels of the XOR equal the first |
| TileClassifier.FindScrollDy | fpga/evrtck_sim.cpp:141-173 | the first shift in search order under which the whole tile matches inside the frame; nothing exactly when none within 32 rows does |
| TileClassifier.NearestShift | fpga/evrtck_sim.cpp:157-171 | the returned shift is the nearest that matches, downward first on a tie |
| TileClassifier.SolidRestores | fpga/evrtck_sim.cpp:214-225 | the single XOR pixel restores the tile, edge tiles included |
| TileClassifier.ScrollRestores | fpga/evrtck_sim.cpp:227-237 | copying the shifted rows of the previous frame restores the tile |
| TileClassifier.DeltaRestores | fpga/evrtck_sim.cpp:239-245 | XORing the delta into the previous tile restores the tile |
| TileClassifier.ClassifyTile | fpga/evrtck_sim.cpp:211-245 | SOLID exactly if all pixels of the tile changed by the same four bytes and the tile fills its beats; otherwise SCROLL with the nearest shift of at most 32 rows exactly if there is one; otherwise DELTA with the XOR; the record fits the wire and restores the tile |
| TileClassifier.Classifier | fpga/evrtck_sim.cpp:177-247 | one restoring record per dirty tile, in order, of the kind that the frames call for, and none for unchanged tiles |
| TilePipeline.ZrleStage | fpga/evrtck_sim.cpp:294-306 | tiles pass unchanged and the second FIFO holds the deltas in the same order, each in its tightest form |
| TilePipeline.PacketWriter | fpga/evrtck_sim.cpp:309-352 | the packet is header, bitmap of exactly the dirty tiles, and their records, each delta with its own compressed form |
| TilePipeline.EncodeFrame | fpga/evrtck_sim.cpp:363-402 | lossless for all frame sizes up to 65536 tiles: decoding against the previous frame yields the current one; header and bitmap are laid out as stated, every tile has the record that the frames call for, and the rest of the packet is these records with tight deltas and nothing else |
| ScrollDetector.PrevRowIdx | fpga/evrtck_scroll_hls.cpp:48-52 | every line index is inside the 64-line buffer |
| ScrollDetector.DetectReference | fpga/evrtck_scroll_csim.cpp:46-85 | the result is the first candidate whose 32 rows all match |
| ScrollDetector.DetectUnrolled | fpga/evrtck_scroll_hls.cpp:56-136 | the reverse, last-write-wins scan has the same specification |
| ScrollDetector.FirstMatchUnique | fpga/evrtck_scroll_csim.cpp:79-85 | the specification determines the result |
| ScrollDetector.FirstMatchIsNearest | fpga/evrtck_scroll_csim.cpp:39-44 | no matching shift is nearer, and of two opposite ones the positive wins |
| ScrollDetector.DetectBoth | fpga/evrtck_scroll_hls.cpp:123-136 | both forms agree on every input and report the nearest shift of at most 16 rows under which all 32 rows of 128 bytes are equal, the one downwards on a tie, and none exactly if there is none |
| Apf.LevelRoundTrip | src/evrt2_apf.rs:49-55 | each of the 16 levels survives dequantising and quantising |
| Apf.RoundingIsHalfALevel | src/evrt2_apf.rs:45-51 | quantising moves a priority by at most half a level |
| Apf.EncodeU4 | src/evrt2_apf.rs:61-84 | byte by byte: version 1, tile size, columns and rows, encoding 1, and for each tile the nearest of 16 levels in half a byte, the high half first |
| Apf.DecodeU4 | src/evrt2_apf.rs:156-185 | on arbitrary bytes: nothing, or a map of exactly the declared size |
| Apf.SnapshotRoundTrip | src/evrt2_apf.rs:61-185 | a snapshot decodes to its header and the 16-level value of every tile, for odd tile counts too |
| Apf.EncodeDelta | src/evrt2_apf.rs:204-242 | encoding 3 sets exactly the tiles whose nearest level changed, to the new level, with as few records as can be and at most one byte per tile |
| Apf.PushSkips | src/evrt2_apf.rs:244-250 | a run of any length as records of at most 127 |
| Apf.DecodeDelta | src/evrt2_apf.rs:259-295 | on arbitrary bytes, zero-length skips included, terminates in bounds with nothing or a map of exactly the declared size |
| Apf.DeltaPatches | src/evrt2_apf.rs:204-295 | on any receiver map of the right size a delta rewrites exactly the tiles whose level changed and is consumed to the last byte |
| Apf.ReplaySets | src/evrt2_apf.rs:259-295 | records that name every tile once set each tile that they set to its level over 15 and leave the others |
| Apf.DeltaRoundTrip | src/evrt2_apf.rs:252-295 | a receiver with the previous levels ends with the current levels |
| ApfGrid.FitsMonotone | src/evrt2_apf.rs:125-130 | if a scale fits the budget, every coarser one does |
| ApfGrid.FitScale | src/evrt2_apf.rs:131-140 | the least fitting scale: a scale fits if and only if it is at least the result; none exactly when 255 does not fit |
| ApfGrid.DownsampleMax | src/evrt2_apf.rs:101-123 | every coarse cell holds the maximum over its tiles |
| ApfGrid.CellMaxIsOne | src/evrt2_apf.rs:98-100 | that maximum is unique |
| ApfGrid.ScaleSurvives | src/evrt2_experiment.rs:3164-3169 | the client recovers the scale if and only if it is at most 7, and 7 otherwise |
| ApfGrid.ChooseGrid | src/evrt2_experiment.rs:1779-1795 | the least scale whose cells, at half a byte each behind a header of 8 bytes, fit 1368 bytes; none exactly if no scale up to 255 does; the cells hold the maxima of their tiles and no cast loses bits |
| ApfGrid.LookupIsHeld | src/evrt2_experiment.rs:3152-3177 | whatever the client holds, it reads 0 or a value of the map it holds |
| ApfGrid.LookupReads | src/evrt2_experiment.rs:3152-3177 | for every scale the client's lookup stays in bounds and is the 16-level maximum of the host cell at the tile's coordinates divided by the smaller of the scale and 7, or 0 off the grid |
| ApfGrid.LookupIsCellMax | src/evrt2_experiment.rs:3152-3177 | up to scale 7 that is the host cell that contains the tile |
| ApfGrid.ScaleEightMisreads | src/evrt2_experiment.rs:1795-1795 | a frame of 416 by 416 tiles needs scale 8, and the client then reads a cold cell for a tile of the hot one |
| ApfSync.ApfHost.SendMap | src/evrt2_experiment.rs:1796-1840 | a key frame is sent as a snapshot, another frame as the delta against the last map sent if that has the same size, and otherwise not at all; the map is remembered exactly if it was sent |
| ApfSync.ApfClient.OnUpdate | src/evrt2_experiment.rs:3273-3305 | any payload leaves a map of exactly its header's size |
| ApfSync.FrameStep | src/evrt2_experiment.rs:1796-1840 | one frame, lost or delivered, keeps the tracked agreement |
| ApfSync.RunSession | src/evrt2_experiment.rs:3273-3311 | after any session both sides agree on every tile that is not tracked as stale |
| ApfSync.InOrderRun | src/evrt2_experiment.rs:1765-1774 | without losses no tile is ever stale |
| ApfSync.SnapshotRestores | src/evrt2_experiment.rs:3306-3311 | whatever was lost before, a delivered snapshot restores full agreement, and deltas after it keep it |
| ApfSync.AgreementIsExact | src/evrt2_experiment.rs:2756-2765 | with no stale tile the client's map is exactly the host's at 16 levels |
| ApfSync.LostDelta | src/evrt2_experiment.rs:3306-3311 | losing a delta breaks the agreement if and only if the delta changed a tile |
| ApfSync.SnapshotLookup | src/evrt2_experiment.rs:1779-1840 | grid choice, snapshot, decoding and lookup together, for every scale |
| DiffScan.InvertedMaskCounts | src/evrt2_attention.rs:387-393 | the set bits of the inverted equality mask count the differing lanes, and a full mask means none |
| DiffScan.WordsEqual | src/evrt2_attention.rs:343-345 | two words are equal as numbers exactly when they are equal byte by byte |
| DiffScan.ScanScalar | src/evrt2_attention.rs:337-363 | the 8-byte scan returns the naive count and leaves the row equal to the current one, touching nothing else |
| DiffScan.ScanWide | src/evrt2_attention.rs:379-397 | the 32-lane scan does the same |
| DiffScan.CountDiffIs | src/evrt2_attention.rs:255-276 | the count is the number of positions in which the two rows differ |
| Attention.Proximity | src/evrt2_attention.rs:404-411 | within 0 and 1, 1 only at the focus, 0 exactly from six tiles on |
| Attention.ClampIsIdle | src/evrt2_attention.rs:73-100 | for every mode the weighted sum is already within 0 and 1, so the clamp changes nothing |
| Attention.MotionRange | src/evrt2_attention.rs:255-276 | motion is a share and is positive exactly when the tile changed |
| Attention.MotionIsShare | src/evrt2_attention.rs:255-276 | motion is the number of differing bytes of the tile over the number of its bytes |
| Attention.RowStep | src/evrt2_attention.rs:263-270 | overwriting one row of a tile moves the pass on by that row and no other position |
| Attention.PassEnds | src/evrt2_attention.rs:186-232 | when all tiles were visited the stored frame is the input: the tiles cover every byte |
| Attention.StreakStep | src/evrt2_attention.rs:196-209 | the saturating counter is the number of latest unchanged frames, and the surprise test means at least eight of them |
| Attention.AttentionMapBuilder.TileMotionAndUpdate | src/evrt2_attention.rs:255-276 | the ratio is that against the untouched previous frame, which is replaced in this tile and nowhere else |
| Attention.AttentionMapBuilder.Compute | src/evrt2_attention.rs:171-233 | the stored frame is the input afterwards and the counters are the unchanged runs; every value of the map is the share of changed bytes times 0.30, 0.65 or 0.15, plus 0.70, 0.20 or 0.55 at the focus, a sixth less with each tile of distance, plus 0, 0.15 or 0.30 for a change after eight unchanged frames, by mode |
| Attention.RunSession | src/evrt2_attention.rs:171-233 | over every run of frames the last map is that sum of motion, nearness and surprise of that run |
| PathSwitch.NextKeeps | src/evrt2_experiment.rs:512-731 | every step of the racers, the main thread, the poll and the client keeps the invariant |
| PathSwitch.HostIsSafe | src/evrt2_experiment.rs:512-622 | in every interleaving: at most one session in the encode loop, one owner of the relay pair or none left, at most one switch, at least three seconds after entering, never without its ACK, at most one relay ACK in all and only after a HELLO |
| PathLaws.GraceWindow | src/evrt2_experiment.rs:1569-1598 | in every run: a host on UDP with a fallback that gets no further attempt can still switch if and only if a HELLO queued at the start lies behind the messages polled inside the grace window |
| PathLaws.DrainedStays | src/evrt2_experiment.rs:1574-1582 | in particular, if every HELLO is polled inside the window and none is sent later the host stays on UDP |
| PathLaws.OnlyAttemptsSwitch | src/evrt2_experiment.rs:589-611 | whatever is queued on the relay before the loop is entered, the host never switches unless an attempt starts afterwards |
| PathTable.TableAgrees | src/evrt2_experiment.rs:512-731 | in every run, whatever step comes next, each component of host, client and channels changes exactly under the stated conditions |
| PathSwitch.ClientCanRetry | src/evrt2_experiment.rs:2542-2591 | a client on UDP still has the pair it was given whatever attempts failed, and can try again; on the relay its session owns it |
| PathSwitch.ClientOnRelay | src/evrt2_experiment.rs:1569-1598 | a client on the relay is matched by a host that has switched, is about to, or has left, unless the relay racer acknowledged in the race |
| PathSwitch.DisagreementNeedsTwoAcks | src/evrt2_experiment.rs:581-611 | client on the relay and host on UDP only when both racers acknowledged, with the relay session unread among the winners and no fallback |
| PathSwitch.StrandedForever | src/evrt2_experiment.rs:1569-1573 | a host on UDP without a fallback never reaches the relay |
| PathSwitch.SplitIffStaleAck | src/evrt2_experiment.rs:2560-2583 | whenever the host is on UDP without a fallback and the client is racing, attempting or connected on UDP with its pair, the client can still move to the relay if and only if an ACK lies unread in its relay channel, and the host never can |
| PathSwitch.RaceSplitsThePaths | src/evrt2_experiment.rs:2504-2515 | a run in which the split happens in the race itself |
| PathSwitch.SwitchedAhead | src/evrt2_experiment.rs:1584-1590 | whenever the host is on the relay, by winning the race or by a switch, or has acknowledged the switch, the client is on the relay, or has ended, or the ACK lies unread and the client can still follow |
| PathSwitch.RelayWinSplitsThePaths | src/evrt2_experiment.rs:581-611 | a run in which the host takes the relay session for the winner and the client the UDP one: the host is on the relay alone without any switch |
| PathSwitch.LatePollSplitsThePaths | src/evrt2_experiment.rs:2567-2590 | a run in which the host polls the HELLO after the attempt timed out and is on the relay alone |
| PathSwitch.StaleAckSplitsThePaths | src/evrt2_experiment.rs:2560-2583 | a run that ends with the client on the relay and the host on UDP |
| Rtt.RttEstimator.OnSample | src/evrt2_rtt.rs:70-101 | fires exactly on the third sample of a maximal streak of breaches |
| Rtt.RttEstimator.ResetBaseline | src/evrt2_rtt.rs:117-122 | the estimator is as new |
| Rtt.EmaRange | src/evrt2_rtt.rs:79-84 | the reported average stays within the range of the samples |
| Rtt.EmaSettles | src/evrt2_rtt.rs:79-84 | on a path that settles at a value, seven tenths of the distance to it remain with each sample |
| Rtt.RttEstimator.Current | src/evrt2_rtt.rs:107-109 | the reported average is the smoothed value rounded down |
| Rtt.RttEstimator.CurrentBaseline | src/evrt2_rtt.rs:103-105 | the reported baseline is the mean of the first five samples rounded down, once there are five |
| Rtt.QuietAfterReset | src/evrt2_rtt.rs:85-101 | nothing fires in the first seven samples |
| Rtt.SteadyPathIsQuiet | src/evrt2_rtt.rs:94-100 | a path whose largest round trip is at most three times its smallest never fires |
| Rtt.Run | src/evrt2_rtt.rs:65-101 | over any run, sample i fires if and only if it and the two before it are over three times the mean of the first five samples and the one before those is not |
| Rtt.OneSignalPerStreak | src/evrt2_rtt.rs:65-69 | marking the third element of each run of breaches marks exactly one per run of three or more |
| Rtt.FiresPerStreak | src/evrt2_rtt.rs:65-101 | over any run the number of signals is the number of maximal breach streaks of three or more |
| Pacing.LossyIsOneInFifty | src/evrt2_experiment.rs:1493-1499 | a window is lossy exactly when more than one in fifty sent frames was dropped |
| Pacing.Pacer.OnWindow | src/evrt2_experiment.rs:1493-1513 | the new interval by the windows alone, within its range |
| Pacing.RunPacer | src/evrt2_experiment.rs:1181-1223 | over every feedback sequence the interval stays between the frame interval and 200 ms |
| Pacing.SlowsOnlyOnSecondLoss | src/evrt2_experiment.rs:1499-1505 | the interval grows only in a lossy window that follows a lossy window |
| Pacing.CleanWindowsHalveTheGap | src/evrt2_experiment.rs:1506-1513 | k clean sending windows divide the gap to the frame interval by 2 to the k |
| Pacing.LossyStreak | src/evrt2_experiment.rs:1499-1505 | in a lossy streak the first window is forgiven and each later one multiplies by 1.5 up to the cap |
| Pacing.IdleWindowKeepsPace | src/evrt2_experiment.rs:1506-1513 | a window without sent frames keeps the interval and ends a streak of lossy windows |
| Pacing.BandwidthEstimator.OnFeedback | src/evrt2_experiment.rs:905-940 | reports 100000 bits per second exactly when the latest two neighbouring samples that agree were constrained, and 4294967295 otherwise |
| Pacing.ConstrainedMeans | src/evrt2_experiment.rs:882-917 | a sample is constrained exactly if at least 20 frames were sent and more than one in fifty was dropped, or the jitter is over 50 ms |
| Pacing.VerdictMeans | src/evrt2_experiment.rs:919-930 | the verdict is that of the latest two neighbouring samples that agree, and clear before there are any |
| Pacing.FlipNeedsTwo | src/evrt2_experiment.rs:919-930 | a flip of the verdict needs two consecutive samples against the old one |
| Pacing.AlternatingNeverFlips | src/evrt2_experiment.rs:867-874 | alternating samples, however many, never flip the verdict |
| ColorConv.Luma | src/colorconv.rs:18-22 | within 16 and 235 for every colour, so the cast wraps nowhere |
| ColorConv.Cb | src/colorconv.rs:24-27 | within 16 and 240 |
| ColorConv.Cr | src/colorconv.rs:29-32 | within 16 and 240 |
| ColorConv.GreyIsNeutral | src/colorconv.rs:11-32 | greys have chroma 128, black and white have the ends of the luma range |
| ColorConv.WithinOneStep | src/colorconv.rs:11-32 | for every colour the integer luma and chroma are less than one step from the quantised signals of section 2.5.3 of Recommendation ITU-R BT.601-7 |
| ColorConv.I420Fast | src/colorconv.rs:64-107 | the planes hold the I420 form of the frame |
| ColorConv.I420Padded | src/colorconv.rs:109-149 | the planes hold the I420 form of the edge-replicated frame |
| ColorConv.Nv12Fast | src/colorconv.rs:181-215 | the buffer holds the NV12 form of the frame |
| ColorConv.Nv12Padded | src/colorconv.rs:217-255 | the buffer holds the NV12 form of the edge-replicated frame |
| ColorConv.ReplicatedSame | src/colorconv.rs:56-60 | with equal sizes nothing is replicated, so both paths agree |
| ColorConv.I420Unique | src/colorconv.rs:64-149 | a frame has one I420 form, and every byte is in range |
| ColorConv.Nv12Interleaves | src/colorconv.rs:64-255 | the NV12 form is the luma plane followed by the I420 chroma planes interleaved |
| ColorConv.BgraToI420 | src/colorconv.rs:41-61 | whichever path is taken, the planes are those of the edge-replicated frame; each luma byte is within one step of the BT.601 signal of its pixel's blue, green and red bytes, and each chroma byte within one step of that of its block if the four pixels are equal, and within one and a half of that of their mean |
| ColorConv.BgraToNv12 | src/colorconv.rs:156-178 | the same for NV12, with pairs of chroma bytes, in a buffer of one and a half bytes per pixel |
| Downscale.SampleInRange | src/evrt2_experiment.rs:3408-3415 | every sampled coordinate is inside the source |
| Downscale.SampleMonotone | src/evrt2_experiment.rs:3408-3415 | sampled coordinates keep the order of pixels |
| Downscale.SampleIdentity | src/evrt2_experiment.rs:3408-3415 | equal sizes sample each pixel itself |
| Downscale.SampleProportional | src/evrt2_experiment.rs:3406-3415 | the sampled coordinate is the proportional one: at most d * s / n, and short of it by less than 1 + d / 65536 |
| Downscale.CopyPixel | src/evrt2_experiment.rs:3411-3423 | the inner guard never skips and no other pixel is touched |
| Downscale.DownscaleBgra | src/evrt2_experiment.rs:3390-3426 | for positive sizes and a full source every destination pixel shows the source pixel at the proportional place, with opaque alpha; otherwise the resized buffer is left as it is |
| Downscale.SameSizeCopies | src/evrt2_experiment.rs:3390-3426 | equal sizes reproduce the source apart from alpha |

## Left out

- Reordering.ReceiveReordered: the frames of any five consecutive numbers fit the buffer together; and when the conditions fail, what comes out instead is that of BufferedStream.ReceiveExactly.
- LostFrames.ReceiveDespiteLoss: the frames of any five consecutive numbers fit the buffer together, and the first frame has its turn; for more than one key frame with losses among frames that overlap, what comes out is that of BufferedStream.ReceiveExactly.
- Reassembler: the counter of dropped frames is stated for one report only (MarkFrameDropped), not which steps report; the assembly delay in milliseconds and `reset` are not modelled; parity metadata is not part of the byte account, as in the source.
- ApfSync.RunSession: packets arrive in order or not at all; reordered deltas are not modelled, and the client's map and header are one value because they are always set together.
- Apf: the size of a delta packet is bounded by one byte per tile only; the datagram budget is a promise about snapshots. The temporal encoding is not modelled.
- Attention.AttentionMapBuilder.Compute: ratios and weights are exact reals, so the rounding of `f32` sums is not captured.
- DiffScan.ScanScalar: words are read as little-endian numbers; the comparison does not depend on the order.
- Rtt.RttEstimator.OnSample: microseconds and the breach counter are unbounded, so the saturating cast of a sample and a wrap after 2^32 breaches are not captured.
- Pacing.Pacer.OnWindow: durations are exact, and the frame interval is any value up to 100 ms (the source's is one sixtieth of a second).
- PathSwitch: agreement of both sides on the race winner is not claimed, since both racers may acknowledge; keys, keep-alives and the idle timeout's duration are not modelled.
- ColorConv.I420Padded: the four luma bytes of a block are collected and then stored, where the source stores them one by one; a source buffer shorter than its size, which makes the original panic, is excluded.
- TilePipeline.EncodeFrame: the statistics of `encode_frame` and frames of more than 65536 tiles, whose numbers no longer fit 16 bits, are left out.
- fpga/evrtck_hls.cpp and `load_prev_lines` of fpga/evrtck_scroll_hls.cpp: their readers and zero-run stage do not follow the same layout as the simulator.
- Capture, hardware encoders, JNI and user interface: foreign calls.
- HMAC, SHA-256, secretbox, key generation: library primitives; only the tag is a parameter.
- The EVRTCK codec of src/evrtck.rs apart from its zero-run decoder, jitter estimation, feedback and ROI byte layouts, mode switching and the NVENC trust window: they depend on measured time, lossy codecs or would only add easy members.
- JSON field scanning, the address book, diagnostics and build scripts: no hard property.
