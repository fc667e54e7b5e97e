# A verified model of an OpenVPN peer

This project models the state machines and codecs of an OpenVPN peer written
in Go (client and server) and proves what they promise. Sockets, TLS, clocks
and ciphers are parameters; everything between them is modelled as the code
does it.

## The parts

- **Compression.** `LzoStream` is a decoder written from the stream rules of
  the Linux kernel's "LZO stream format as understood by Linux's LZO
  decompressor". `LzoTokens` gives instructions their bytes, and `LzoCompress`
  is the match finder and emitter. `Compression` holds the frame markers.
- **Fragments.** `FragmentHeader`, `Reassembly` and `Interleaving` cover the
  header, the reassembly window and every order of arrival. `Framing` is the
  framing object, and `FramingRuns` takes runs of its encodings to runs of its
  decodings, which is the end-to-end result.
- **Replay window.** `ReplaySpec` is a set of accepted IDs. `ReplayWindows` is
  the bitmap and the array of arrival times that refine it, over the word
  arithmetic of `Word64`.
- **Control channel.** `PacketCodec` is the packet header. `ReliableSpec` and
  `ControlChannel` describe two peers over a network that drops, duplicates
  and reorders; `AckSafety` says what an acknowledgment is worth.
  `ControlWrite` is a write turn by turn, with what it reports. `ReliableState`
  and `ControlChannelState` are the objects that refine them.
- **Rekeying.** `RekeySpec` describes overlapping negotiations, `RekeyLists`
  and `RekeySafety` prove its invariant, `RekeyTheorems` states the results,
  and `PeerSession` refines it. `DataPacketIDs` adds the writers.
- **Addresses and sessions.** `IpPoolSpec`, `IpPools` and `Tunnel` cover
  leases and routes; `RegistrySpec`, `RegistrySafety` and `ServerState` cover
  the session registries and reservations.
- **Arithmetic and buffers.** `Checksum` and `MssClamp`, `StreamFraming` and
  `StreamConnection`, `DataQueue` and `QueueWakeup`, `DataCodec`,
  `DataReceive` and `PayloadBudget`.
- **Pushed options.** `OptionLine` is the tokenizer, `PushReply` the splitting
  and gathering.

Each component that the code keeps in mutable fields is a class whose methods
are proved against functions on values. The results over whole runs are proved
about those functions.

## Results that are not what one might expect

- A payload of more than 65536 bytes that LZO shortens is sent and cannot be
  decoded: `Framing.OversizedPayload` sends every long run of equal bytes. The
  exact condition is in `Framing.LzoArrives`, and `Framing.FittingFrame` is the
  sender's side of it.
- An acknowledged control packet can be lost, because it is acknowledged before
  the window test: `AckSafety.AcknowledgedAndLost`, with the exact condition
  in `AckSafety.AcknowledgedIsHeld`.
- Reaping raises nothing when the newest expired packet carries the last ID:
  `ReplaySpec.ReapWraps`, with the exact condition in
  `ReplaySpec.ReapedRefuses`.
- A server can send with a key it does not receive on. Three staged keys push
  its sending key out of the receive keys, `RekeyTheorems.StagedKeysPushOut`,
  and leave a key out that is promoted behind them,
  `RekeyTheorems.PromotedKeyLeftOut`. The exact condition over runs is in
  `RekeyTheorems.ReceivesOwnThroughout`, and that of a promotion in
  `RekeyTheorems.PromotedExactly`.
- A write to the control channel that fails on the link reports fewer bytes than
  will be delivered, because its packet stays in the send buffer:
  `ControlChannelState.FailedWriteIsSent`. The exact condition on buffer and
  turns is in `ControlWrite.ReportedExactly`, the difference in
  `ControlWrite.UnreportedChunk`, and when each outcome comes about in
  `ControlWrite.OutcomeExactly`.
- A session registered under two names is left behind when it is evicted:
  `RegistrySafety.RegisteredTwice`, with the exact condition over runs in
  `RegistrySafety.AgreeExactly`.
- Moving the server's address can leave a net30 /29 network without a lease, or
  onto a lease that an identity is still remembered for:
  `IpPoolSpec.MovedHasRoom`, `IpPoolSpec.MoveKeeps` and
  `IpPoolSpec.ServerIsLeased`.
- A stream codec cannot decode the empty payload it encodes:
  `DataCodec.StreamRoundTrip`. The writers send no empty payload.

Where the code and its documentation disagree, the model follows the code. The
kernel's LZO document counts one literal too few for first bytes above 17; the
compressor here and the decompressors in use count as `LzoStream` does.

## Model

| member | source | states |
|---|---|---|
| LzoCompress.CompressBlock | lzo_compress.go:20-32 | for every input, the stream rules decode the output to exactly that input and stop at its end; a run of 19 or more equal bytes has exactly the length of one literal run and one copy |
| LzoCompress.CompressBlockCore | lzo_compress.go:34-147 | the output is a well-formed instruction sequence that expands to the input without the literal tail; no index leaves the input or the dictionary |
| LzoCompress.FindMatch | lzo_compress.go:40-57 | the first slot if its entry repeats the next three bytes at an offset an instruction can hold, else the second, and no match exactly when neither does |
| LzoCompress.FindCandidate | lzo_compress.go:149-159 | the entry of the slot exactly when it lies before the position, within the greatest offset, and agrees in its fourth byte when it is far away |
| LzoCompress.MeasureMatch | lzo_compress.go:63-103 | the match ends exactly where the input stops repeating, or at its end |
| LzoCompress.AppendMatch | lzo_compress.go:57-124 | literals and match together extend the expansion to the end of the match |
| LzoCompress.AppendShortMatch | lzo_compress.go:72-96 | the bytes of a short match are the code of the copy with that distance and length |
| LzoCompress.AppendLongMatch | lzo_compress.go:97-122 | the bytes of a long match are the code of the copy with that distance and length, for every length |
| LzoCompress.AppendLiteral | lzo_compress.go:161-178 | any run of literals, also one folded into the instruction before it, extends the expansion by those literals |
| LzoCompress.PatchedCopy | lzo_compress.go:169-170 | setting the low bits of the byte before last turns the last copy into the same copy with up to three literals behind it |
| LzoCompress.AppendMultiple | lzo_compress.go:180-186 | appends the length code that the stream rules read back as the same length |
| LzoCompress.CopyReproduces | lzo_compress.go:63-103 | copying back over a repetition, overlapping or not, reproduces the input |
| LzoTokens.StreamRoundTrip | lzo_compress.go:20-32 | every well-formed instruction sequence, with the end marker, decodes to its expansion with nothing left over |
| LzoTokens.TokensAreRead | lzo_compress.go:34-178 | the decoder is back at an instruction boundary after the bytes of each instruction |
| Compression.FrameRoundTrip | data_channel_compression.go:32-62 | a frame of any compression setting gives its payload back if and only if it is not an LZO block of more than 65536 bytes |
| LzoCompress.RunShrinks | lzo_compress.go:97-122 | a run of equal bytes shrinks to about a 255th of its length |
| LzoCompress.OpeningFinds | lzo_compress.go:40-57 | in a run of equal bytes the first position finds nothing and the second finds the byte before it |
| Framing.OversizedPayload | data_channel_compression.go:32-46 | every run of equal bytes longer than 65536 is sent by the encoder and dropped by the decoder |
| Framing.LzoArrives | data_channel_compression.go:32-123 | what the LZO encoder sends arrives if and only if it fits 65536 bytes or was not compressed; a run of equal bytes, if it fits or compression was not tried |
| Framing.FittingFrame | data_channel_framing.go:57-124 | a payload of at most 65536 bytes arrives whatever the setting and whatever the encoder chooses |
| Compression.StubRoundTrip | data_channel_compression.go:161-203 | taking the stub marker off gives the payload back, with and without the byte swap |
| Compression.EscapeRoundTrip | data_channel_compression.go:125-159 | the v2 escape is undone for every payload, including those that start like an escape |
| FragmentHeader.ParsePrepended | data_channel_fragmentation.go:72-111 | parsing a fragment gives the fields and payload its header was made from |
| Reassembly.StoreAccounted | data_channel_fragmentation.go:113-195 | whatever arrives, each buffer's byte count is the sum of its parts and every buffered sequence is within 24 behind the newest |
| Reassembly.MemoryBounded | data_channel_fragmentation.go:156-163 | the bytes held stay below the memory limit, so that the eviction loop is never entered |
| Reassembly.BuffersBounded | data_channel_fragmentation.go:197-242 | at most 25 packets are being reassembled |
| Interleaving.EveryArrival | data_channel_fragmentation.go:85-242 | for any interleaving of the fragments of up to 25 consecutive packets, each arrival yields the whole packet if it is the completing one, and nothing otherwise |
| Interleaving.DeliveredExactlyOnce | data_channel_fragmentation.go:113-195 | exactly one arrival delivers each complete packet, with its bytes |
| Interleaving.NoLateFragment | data_channel_fragmentation.go:113-195 | no fragment of a packet arrives after the packet is complete |
| Framing.DataChannelFraming.EncodeFragments | data_channel_fragmentation.go:40-70 | the fragments are the packet cut at multiples of the rounded size; too small a size and too many fragments are refused, and the sequence number advances only for fragmented packets |
| Framing.DataChannelFraming.StoreFragment | data_channel_fragmentation.go:113-195 | the reassembly map and byte count follow the specification, with the count equal to the bytes held |
| Framing.DataChannelFraming.AdvanceWindow | data_channel_fragmentation.go:197-219 | moving the window keeps exactly the buffers inside it |
| Framing.DataChannelFraming.ExpireFragments | data_channel_fragmentation.go:250-260 | exactly the buffers that have timed out go |
| Framing.DataChannelFraming.EncodeLzoFrame | data_channel_compression.go:32-46 | under either setting the block is sent exactly when compression is tried and the block is shorter, and both sizes enter the adaptive sample |
| Framing.DataChannelFraming.LzoCompressionEnabled | data_channel_compression.go:78-100 | the sample after the call, and whether compression is tried |
| Framing.OffForAMinute | data_channel_compression.go:78-100 | compression that goes off stays off for sixty seconds, however often it is asked for, and then comes back |
| Framing.DataChannelFraming.Encode | data_channel_framing.go:57-80 | a payload becomes the fragments of its frame, and the sequence number advances only when it is cut |
| Framing.DataChannelFraming.Decode | data_channel_framing.go:82-124 | decoding follows the specification for every compression setting, fragmented or not |
| Framing.FragmentsAreWire | data_channel_fragmentation.go:40-70 | what the encoder emits is what the interleaving results are about |
| Framing.PayloadsArrive | data_channel_framing.go:57-124 | for every compression setting and every interleaving, the completing arrival yields the original payload and all others nothing |
| Framing.IntactArrives | data_channel_framing.go:82-124 | a packet that was not cut yields its payload wherever it arrives among the fragments |
| FramingRuns.EncodeAll | data_channel_framing.go:57-80 | one payload after another through one object: each output is the fragments of its frame under the number that the cut packets before it leave |
| FramingRuns.BatchIsValid | data_channel_fragmentation.go:40-70 | the packets that took a number, refused ones replaced, are a batch as the interleaving results ask for |
| FramingRuns.OutputsAreWire | data_channel_fragmentation.go:40-70 | what the encodings put out is fragment by fragment that batch on the wire, and every other packet goes out whole |
| FramingRuns.DecodeAll | data_channel_framing.go:82-124 | for any schedule of a batch, the results of the decoder are those of the interleaving specification |
| FramingRuns.EncodedPayloadsArrive | data_channel_framing.go:57-124 | end to end, from a run of encodings through any interleaving: the arrival that completes a packet yields the payload that was encoded, its other fragments nothing |
| Framing.DeliverFrame | data_channel_framing.go:82-124 | a reassembled frame yields its payload if and only if the receiver can hold it |
| PacketCodec.BytesAfterParse | proto/packet.go:119-252 | writing a parsed packet reproduces every raw packet that parses |
| PacketCodec.ParseAfterBytes | proto/packet.go:119-252 | parsing a written packet reproduces it up to the fields its opcode does not carry |
| PacketCodec.ViewAgrees | proto/packet.go:145-167 | the view and the copying parser agree on every input, errors included |
| PacketCodec.ReadAcknowledgments | proto/packet.go:169-213 | the acknowledgment loop reads the big-endian IDs |
| PacketCodec.WriteAcknowledgments | proto/packet.go:215-252 | the acknowledgment loop writes them |
| ReplaySpec.AcceptedExactly | replay_window.go:76-125 | with a window, a packet of the current timestamp is accepted if and only if it is non-zero, new, and ahead of the window or inside it and not reaped |
| ReplaySpec.AcceptedInOrder | replay_window.go:76-125 | without a window only the direct successor is accepted |
| ReplaySpec.NoReplay | replay_window.go:50-192 | over every run of AcceptLongForm no packet ID and timestamp are accepted twice |
| ReplaySpec.NoShortReplay | replay_window.go:39-192 | the same for runs of Accept |
| ReplaySpec.ReapedRefuses | replay_window.go:144-159 | a packet at or behind the newest expired one is refused, except exactly when the raised bound wraps and the packet is new and inside the window |
| ReplaySpec.ReapWraps | replay_window.go:153-156 | a run in which a packet older than an expired one still passes, because the raised bound wraps to zero |
| ReplayWindows.ShiftBitmap | replay_window.go:161-176 | in place over several words, every bit moves up by the shift and zeros come in |
| ReplayWindows.ShiftTimes | replay_window.go:178-192 | the arrival times move by the shift and the freed ones are cleared |
| ReplayWindows.ReplayWindow.Initialize | replay_window.go:127-142 | a new epoch with one accepted packet |
| ReplayWindows.ReplayWindow.Reap | replay_window.go:144-159 | the lower bound becomes the one after the newest expired packet, modulo 2^32 |
| ReplayWindows.ReplayWindow.AcceptLocked | replay_window.go:76-125 | the bitmap and times refine the set of accepted IDs: bit k is set if and only if highest - k was accepted in this epoch |
| ReplayWindows.ReplayWindow.Accept | replay_window.go:39-48 | refines the specification for short IDs |
| ReplayWindows.ReplayWindow.AcceptLongForm | replay_window.go:50-74 | refines the specification for IDs with timestamps |
| Word64.MaskPicks | replay_window.go:106-123 | masking with a power of two tells whether that bit is set |
| ReliableSpec.ReleasedExactly | proto/reliable.go:85-99 | acknowledgments release exactly the named packets and leave the others as they were sent |
| ReliableSpec.ReturnUndoesTake | proto/reliable.go:129-155 | taking acknowledgments and giving them back changes nothing |
| ReliableSpec.AdmitsExactly | proto/reliable.go:193-212 | a new packet is admitted if and only if it is less than twelve past the next expected one |
| ReliableSpec.ReadySettles | proto/reliable.go:214-238 | the packets handed on are the consecutive ones after the last, and the next expected one is then not buffered |
| ReliableState.NextKeyID | proto/session.go:109-118 | key IDs cycle through 1 to 7 and never repeat at once |
| ReliableState.SessionManager.NewControlPacket | proto/session.go:207-225 | packet IDs are issued one after the other, and not at all once they are used up |
| ReliableState.SessionManager.NewDataPacketIDs | proto/session.go:227-248 | a block of consecutive IDs, all of them or none |
| ReliableState.SessionManager.Renegotiated | proto/session.go:121-136 | a soft reset keeps the session IDs and starts packet IDs at 1 |
| ReliableState.SortedIDs | proto/reliable.go:133-137 | whatever order the map is walked in, the list is the ascending one |
| ReliableState.OutgoingReliableState.TakeAcknowledgmentIDs | proto/reliable.go:129-145 | the oldest pending acknowledgments, at most so many, leave the set |
| ReliableState.OutgoingReliableState.ReturnAcknowledgmentIDs | proto/reliable.go:147-155 | they go back in order as far as there is room |
| ReliableState.OutgoingReliableState.InsertOutgoingPacket | proto/reliable.go:56-76 | a packet takes its slot, its ID and its acknowledgments together, or nothing changes; a new ID keeps the buffer a map |
| ReliableState.OutgoingReliableState.Acknowledge | proto/reliable.go:86-98 | swap removal releases the acknowledged packet and counts the ones before it, each once |
| ReliableState.OutgoingReliableState.OnIncomingPacket | proto/reliable.go:78-103 | refines the specification on maps and sets |
| ReliableState.IncomingReliableState.TryInsertIncomingPacket | proto/reliable.go:193-212 | inserts exactly the admitted packets |
| ReliableState.IncomingReliableState.NextOrderedSequence | proto/reliable.go:214-238 | sorting and one walk hand on exactly the ready run and keep the rest |
| ReliableState.ReadyIsTheLeadingRun | proto/reliable.go:217-234 | in a sorted buffer the ready packets are the leading consecutive IDs |
| ControlChannel.StreamPrefix | control_channel.go:176-288 | over every run with a network that drops, duplicates and reorders, what one end reads is a prefix of what the other wrote |
| ControlChannel.RunKeepsOrder | control_channel.go:504-567 | the receiver has exactly the bytes of the packets up to the last one in order, and only genuine packets beyond |
| ControlChannel.ReceiveKeepsOrder | control_channel.go:551-565 | accepting a packet passes on its bytes in order and once |
| AckSafety.NothingAcknowledgedIsLost | control_channel.go:544-554 | while every arrival is less than twelve past the next expected packet, every acknowledged packet is consumed or buffered, and every other one still in flight |
| AckSafety.EmptySendBuffer | proto/reliable.go:157-161 | an empty send buffer then means that the other end has every byte |
| AckSafety.AcknowledgedIsHeld | control_channel.go:544-554 | a packet that is acknowledged is held if and only if it was inside the window |
| AckSafety.AcknowledgedAndLost | control_channel.go:544-554 | a run in which packet 13, which carries a byte, is acknowledged, forgotten by its sender and not held |
| ControlChannelState.TlsControlChannel.NewOutgoingControlPacket | control_channel.go:264-318 | for every protection and address family the chunk is what the packet has room for, and the channel moves as the protocol says |
| ControlChannelState.TlsControlChannel.Write | control_channel.go:226-256 | peer, bytes reported, bytes put into packets and outcome are those of the turn-by-turn specification; the payloads sent grow by exactly the bytes put into packets |
| ControlWrite.OutcomeExactly | control_channel.go:226-256 | a write ends with deadline, closed channel, used-up IDs, failed link or completion if and only if a turn it reaches brings that about |
| ControlWrite.ReportedExactly | control_channel.go:244-254 | the bytes reported are the bytes put into packets if and only if no turn the write reaches has a slot and bytes to send on a broken link, with or without a wrapped key |
| ControlWrite.UnreportedChunk | control_channel.go:248-251 | what a write that fails on the link leaves unreported is exactly the chunk of that turn |
| ControlWrite.WriteSends | control_channel.go:226-256 | whatever the turns, the payloads sent grow by a prefix of the buffer, in order |
| ControlChannelState.FailedWriteIsSent | control_channel.go:248-251 | for every buffer that is not empty, a fresh channel on a broken link reports nothing written and a failed link while the first bytes are in the send buffer |
| ControlChannelState.TlsControlChannel.NewAcknowledgmentPacket | control_channel.go:605-638 | an acknowledgment of its own, or an empty packet while the wrapped key is still to be sent |
| ControlChannelState.TlsControlChannel.AcknowledgmentNotSent | control_channel.go:660-667 | a failed write leaves the channel as it was |
| ControlChannelState.TlsControlChannel.ProcessIncomingControlPacket | control_channel.go:504-567 | every branch, resets, listeners and foreign sessions included, moves the channel as the protocol says |
| ControlChannelState.TlsControlChannel.Read | control_channel.go:176-224 | a read takes the next bytes in order and loses none |
| ControlChannelState.PacketFits | control_channel.go:264-318 | a packet's length is its overhead and its payload, and stays within the packet size unless the wrapped key alone exceeds it |
| RekeyTheorems.OneActiveKey | renegotiation.go:183-253 | in every reachable state at most one key state is active; it sends, and it is the last one promoted |
| RekeyTheorems.RunForward | renegotiation.go:232-253 | neither the promoted sequence nor the installed stream ever goes back |
| RekeyTheorems.StreamNeverStuck | control_stream.go:45-96 | the stream waits only for a negotiation that is still to finish, and for none once all have or the session is closed |
| RekeyTheorems.FinishReleasesStream | renegotiation.go:183-224 | however the awaited negotiation ends, the stream stops waiting |
| RekeyTheorems.ReceiveKeys | peer_data.go:246-288 | at most three receive keys, with increasing sequences and different key IDs |
| RekeyTheorems.ClientReceivesOnSendingKey | peer_data.go:246-312 | a client can always receive on its sending key, which has no expiry |
| RekeyTheorems.ReceivesOwnThroughout | peer_data.go:258-299 | a session receives on its sending key in every open state of a run if and only if no staging of the run meets three newer usable keys, the staged one included |
| RekeyTheorems.StepLeavesOwn | peer_data.go:258-299 | of all steps of an open session only such a staging takes the sending key out of the receive keys, and it always does |
| RekeyTheorems.PromotedExactly | peer_data.go:258-287 | from every reachable state a promoted key is among the receive keys if and only if fewer than three usable ones are newer |
| RekeyTheorems.StagedExactly | peer_data.go:290-299 | staging a key keeps the sending key if and only if fewer than three usable keys are newer |
| RekeyTheorems.StagedKeysPushOut | peer_data.go:275-280 | a run after which a server no longer receives on its sending key |
| RekeyTheorems.PromotedKeyLeftOut | peer_data.go:270-287 | a run in which a server switches to a sending key it does not receive on |
| RekeySafety.RunKeeps | renegotiation.go:101-369 | the invariant behind these results holds after every run of begin, finish, expire, stage, select and close |
| RekeySafety.BeginRegisters | renegotiation.go:118-157 | a new negotiation always gets its channel registered, under the next sequence |
| RekeySafety.PrunedAreRetired | renegotiation.go:313-337 | pruning removes lame ducks only |
| RekeyLists.InstalledExactly | peer_data.go:246-281 | a receive key stays if and only if it is usable, not replaced, and fewer than three usable keys are newer |
| PeerSession.PrimaryControlStream.Install | control_stream.go:45-61 | refines the specification |
| PeerSession.PrimaryControlStream.BeginHandover | control_stream.go:63-71 | refines the specification |
| PeerSession.PrimaryControlStream.AbortHandover | control_stream.go:73-81 | refines the specification |
| PeerSession.PrimaryControlStream.Snapshot | control_stream.go:83-90 | a stream to use exactly when one is installed and none is being handed over |
| PeerSession.TlsPeerSession.BeginSoftReset | renegotiation.go:101-163 | refines the specification, and reports a new negotiation exactly when it joins none that is under way |
| PeerSession.TlsPeerSession.FinishSoftReset | renegotiation.go:183-224 | refines the specification: promoted and pruned, or failed and removed, once |
| PeerSession.TlsPeerSession.PromoteKeyState | renegotiation.go:232-253 | a newer key state becomes active and demotes the others, an older one becomes a lame duck |
| PeerSession.TlsPeerSession.PruneRenegotiations | renegotiation.go:313-337 | the walk, the sort and the trimming remove the overdue lame ducks and all completed states but the newest three |
| PeerSession.TlsPeerSession.ExpireKeyState | renegotiation.go:297-311 | removes a lame duck past its time and nothing else |
| PeerSession.TlsPeerSession.FailAllRenegotiations | renegotiation.go:351-369 | removes every key state and releases the stream |
| PeerSession.TlsPeerSession.RemoveRenegotiation | renegotiation.go:339-349 | takes the key state, its channel and its receive key along |
| PeerSession.TlsPeerSession.InstallDataKeyState | peer_data.go:246-288 | the loop, sort and trimming give the specified list, and a promoted key sends |
| PeerSession.TlsPeerSession.DiscardDataKeyState | peer_data.go:301-312 | drops exactly that key state's receive key |
| PeerSession.TlsPeerSession.SelectReceiveCodec | peer_data.go:338-355 | drops the expired keys and selects one for the key ID if there is one |
| PeerSession.TlsPeerSession.StageNegotiatedReceiveKey | peer_data.go:290-299 | stages the key of a negotiation that is under way, and reports whether there was one |
| DataPacketIDs.NoPacketIDTwice | peer_data.go:408-494 | over any batches, encode failures and rekeys no codec is called twice with one packet ID, and IDs neither reach zero nor wrap |
| DataPacketIDs.WriteBatch | peer_data.go:439-494 | a batch takes its IDs in one block and uses them in order up to the first failure, as the histories say |
| DataPacketIDs.EncodeAll | peer_data.go:456-494 | the nested loops use one ID for each prepared packet and stop behind the first that fails |
| DataPacketIDs.IDsAscend | proto/session.go:227-248 | each codec sees its packet IDs in ascending order |
| Checksum.Fold | mss_clamp.go:155-158 | the folding loop computes the one's-complement sum |
| Checksum.IncrementallyUpdate | mss_clamp.go:154-160 | computes equation 3 in section 3 of RFC 1624 |
| Checksum.UpdateBalances | mss_clamp.go:154-160 | the new checksum makes up for the changed word, modulo 65535 |
| MssClamp.ClampKeepsValid | mss_clamp.go:105-152 | a checksum is valid after clamping if and only if it was before, for even and odd offsets and any number of MSS options |
| MssClamp.ClampsExactly | mss_clamp.go:105-142 | only MSS values and the checksum change, and every value reached becomes the lesser of itself and the cap |
| MssClamp.ClampTwice | mss_clamp.go:105-142 | a second clamp changes nothing |
| MssClamp.ApplyTwice | mss_clamp.go:45-58 | the same for whole packets |
| MssClamp.ClampTCPSYNSegment | mss_clamp.go:105-142 | the in-place walk produces the clamped segment and reports whether a value was above the cap |
| MssClamp.Lower | mss_clamp.go:132-152 | one value is lowered in place and the checksum corrected, if it is above the cap |
| MssClamp.ApplyInPlace | mss_clamp.go:45-103 | only whole, unfragmented TCP SYN packets are touched, with the cap lowered by twenty for IPv6 modulo 65536; the result says exactly whether an option was above the cap |
| StreamConnection.StreamPacketConnection.ReadPacket | proto/connection.go:132-157 | for any chunking and errors anywhere, the frames returned so far and the pending bytes are all bytes the link has given; an error waits until no whole packet is left, every error of the link is reported once, in order, and giving up takes a hundred idle reads |
| StreamConnection.StreamPacketConnection.BufferedPacket | proto/connection.go:159-178 | a packet exactly when all of it is buffered, an error exactly for a zero length |
| StreamConnection.StreamPacketConnection.MakeRoom | proto/connection.go:180-198 | growing or compacting keeps the pending bytes and always leaves free space |
| StreamConnection.StreamPacketConnection.Fill | proto/connection.go:180-205 | what one read of the link gives is appended, bytes and error, and nothing else changes |
| StreamConnection.StreamPacketConnection.ReadPackets | proto/connection.go:106-130 | one packet and up to 63 more that are already complete; fewer only in front of an incomplete packet or a zero length, which are told apart |
| StreamConnection.WritePackets | proto/connection.go:212-259 | the bytes on the wire are a prefix of the frames; the count is the first packet not fully sent, or all before an oversized one |
| StreamConnection.WriteFrames | proto/connection.go:323-359 | which frames a partial write completed, and whether it stopped inside one |
| StreamConnection.Encapsulate | proto/connection.go:239-253 | the batch is the frames of the non-empty packets in order |
| StreamConnection.ClosedInsideFrame | proto/connection.go:343-358 | the link is closed if and only if a failed write stopped inside a frame; otherwise the peer is at a frame boundary |
| StreamFraming.FramesAreUnique | proto/connection.go:159-178 | however a byte stream is cut into packets, it is the same packets |
| StreamFraming.ReadsWhatWasWritten | proto/connection.go:75-83 | from any prefix of the bytes written, the packets read are a prefix of the non-empty packets written |
| DataQueue.DataPacketQueue.PushBatch | data_queue.go:31-59 | the ring then holds the newest items, in order; the released ones are the oldest, and a push into an empty queue signals |
| DataQueue.DataPacketQueue.PushBatchDropNew | data_queue.go:61-83 | takes as many as there is room for and releases the rest |
| DataQueue.DataPacketQueue.Pop | data_queue.go:85-120 | takes the longest run from the front within the limit, and signals if it leaves items behind |
| DataQueue.RunLength | data_queue.go:95-104 | the greatest number of items that go with the first |
| QueueWakeup.EveryRun | data_queue.go:31-139 | in every interleaving with one reader, a reader waiting beside items will be woken, and pushed items are popped, dropped or queued, in order |
| QueueWakeup.ReaderCatchesUp | data_queue.go:122-139 | in every run with other moves in between, signal, wake and pop in this order give a waiting reader something |
| QueueWakeup.ReaderGetsWhatWasQueued | data_queue.go:122-139 | if pops take all there is, what was queued comes next and in order, except for a front part that pushers dropped |
| IpPoolSpec.ConfiguredHasRoom | ip_pool.go:98-127 | every network from /16 to /29 has an address to lease, outside the network and server addresses |
| IpPoolSpec.MovedHasRoom | ip_pool.go:145-162 | wherever the server is moved there is an address to lease, except if and only if it takes the single pair of a net30 /29; no lease takes its address |
| IpPoolSpec.MoveKeeps | ip_pool.go:145-162 | moving the server agrees with the remembered leases if and only if none of them takes the new address |
| IpPoolSpec.ServerIsLeased | ip_pool.go:145-162 | otherwise the identity that remembers the lease is given the server's address |
| IpPools.IpPool.SetServer | ip_pool.go:145-162 | refused exactly for an address that is no host of the network or while anything is leased |
| IpPoolSpec.PairsDisjoint | ip_pool.go:277-290 | in net30 no two leases share an address, and none is the server's |
| IpPoolSpec.CommitKeeps | ip_pool.go:339-356 | sticky identities and addresses stay each other's inverse |
| IpPoolSpec.ReleaseKeeps | ip_pool.go:239-253 | giving an address back keeps that, too |
| IpPoolSpec.Sticky | ip_pool.go:201-206 | an identity that gives its address back and asks again gets the same one |
| IpPools.IpPool.Allocate | ip_pool.go:195-213 | refused if and only if every lease is in use; otherwise the identity's own address if free, or the next one |
| IpPools.IpPool.FindNext | ip_pool.go:294-326 | the lowest free address without an identity, the one given up longest ago with one |
| IpPools.IpPool.CommitLease | ip_pool.go:339-356 | the maps after a lease is handed out |
| IpPools.IpPool.GiveBack | ip_pool.go:239-253 | the maps after a lease is given back |
| Tunnel.LeasesApart | server_tunnel.go:5-47 | over every run, sessions hold different client addresses, in net30 disjoint pairs, and never the server's address |
| Tunnel.RoutesLeadToHolders | peer_route_registry.go:36-93 | a route exists only while its session holds the address |
| Tunnel.UnregisterKeeps | server_tunnel.go:34-41 | unregistering removes no route but the session's own |
| RegistrySafety.AgreeExactly | server_tls.go:287-520 | the registries agree throughout a run if and only if every registration in it enters well |
| RegistrySafety.StepExactly | server_tls.go:287-520 | a step keeps the registries in agreement if and only if it is no registration or one that enters well |
| RegistrySafety.RegisterExactly | server_tls.go:287-350 | registering keeps the registries in agreement if and only if it is refused or gives the session no second name |
| RegistrySafety.RegisterInitialExactly | server_tls.go:314-350 | registering for the initial slot keeps them if and only if it is refused, or gives no second name, no second slot and no slot to a session with a reservation |
| RegistrySafety.ListenersEnterWell | server_listener.go:291-343 | a session that is not registered yet enters well, and for the initial slot one that holds no reservation, as the two listeners register them |
| RegistrySafety.RegistriesAgree | server_tls.go:287-520 | over every run whose registrations enter well, a session in any registry is in the main one under its own address; peer IDs are below the limit, and peer IDs, UDP bindings and initial slots belong to one session each |
| RegistrySafety.InstancesAreReservations | server_resource_policy.go:89-103 | the instances counted are the reservations held, through promotion and release, and never exceed the limit |
| RegistrySafety.EvictedForGood | server_tls.go:491-520 | from an eviction on, a session is in no registry unless it is registered again |
| RegistrySafety.RegisteredTwice | server_tls.go:338-350 | a session registered under two names is left in a registry when it is evicted |
| ServerState.TlsServer.EvictSession | server_tls.go:500-520 | takes the session out of all five registries |
| ServerState.TlsServer.RegisterSession | server_tls.go:287-308 | refused if and only if the address is empty or another session has the UDP address; otherwise bound under the first free name |
| ServerState.TlsServer.FreeName | server_tls.go:338-350 | the given address unless another session has it, else the one with the first free number the counter reaches |
| ServerState.TlsServer.RegisterInitialSession | server_tls.go:314-336 | the session takes the initial slot over, the one before it is evicted and reported, and the name is the first free one after that |
| ServerState.TlsServer.PromoteInitialSession | server_tls.go:356-381 | the session that served the address is evicted, its reservation passed on, and it alone is reported |
| ServerState.TlsServer.AllocatePeerID | server_tls.go:482-489 | the lowest free peer ID, or none only if all are taken |
| ServerState.TlsServer.EnablePeerID | server_tls.go:453-480 | a listed session has or gets a peer ID exactly when one is free, and then the lowest |
| ServerState.TlsServer.FloatSession | server_tls.go:639-675 | the session's only binding moves, displacing a session of the same client and refusing exactly when another client has the address or the session is not registered |
| ServerState.TlsServer.ReserveInstance | server_resource_policy.go:89-97 | refused exactly at the limit |
| ServerState.TlsServer.ReleaseResourceReservation | server_session.go:148-153 | a reservation is given back once |
| DataCodec.PadRoundTrip | data_codec_static.go:367-400 | for every block size unpadding gives back what was padded if and only if the padding is shorter than 256 bytes |
| DataCodec.Pad | data_codec_static.go:367-381 | the padded bytes, and an error exactly for a block size below one |
| DataCodec.Unpad | data_codec_static.go:383-400 | the bytes before the padding, or an error if the end is not padding |
| DataCodec.ExactLength | data_codec_cbc.go:25-33 | for every codec the announced length is the length encoding produces, and only packet ID 0 is refused |
| DataCodec.CodecRoundTrip | data_codec_aead.go:101-193 | for every codec decoding gives back ID, timestamp and payload, except that a stream codec refuses the empty payload it encodes |
| DataCodec.StreamRoundTrip | data_codec_stream.go:98-157 | a stream codec gives back its payload if and only if it is not empty |
| DataCodec.BlocksRoundTrip | data_codec_cbc.go:74-152 | a block cipher codec gives back every payload |
| DataReceive.TryCandidates | data_codec_static.go:115-132 | the first key that opens the packet decides |
| DataReceive.CandidateRoundTrip | data_codec_static.go:115-186 | a packet of one of several static keys is decoded with it when no earlier key has the same digest for it |
| DataReceive.ReceivedOnce | data_codec_static.go:115-132 | whatever bytes arrive, in whatever order, no ID with its timestamp is handed on twice |
| DataReceive.GenuineArrives | data_codec_stream.go:132-157 | a packet of the other end is handed on as it was encoded if and only if the replay window accepts its ID |
| DataCodec.LongerIsLonger | data_codec_static.go:41-49 | the announced length never falls as the payload grows |
| PayloadBudget.Calculate | client_data.go:176-193 | the binary search finds the greatest payload that fits whenever one byte does |
| PayloadBudget.FragmentsFit | client_data.go:119-128 | every fragment becomes a packet within the configured size, and a budget below four is an error |
| OptionLine.ParseLine | pull_options.go:817-889 | the scanning loop computes the tokenizer's result |
| OptionLine.PlainWords | pull_options.go:817-889 | plain words with spaces between them are exactly the parameters |
| OptionLine.AnyParameters | pull_options.go:809-889 | every list of up to sixteen parameters can be written, in quotes, as a line that reads back as it |
| PushReply.SplitsExactly | server_negotiation.go:139-165 | splitting succeeds if and only if every field is at most 928 bytes, and keeps the fields in order |
| PushReply.PushRoundTrip | pull_options.go:96-130 | payloads of at most 959 bytes, all but the last marked as continued, from which the client gathers the original fields |
| PushReply.SplitFields | server_negotiation.go:139-165 | the loop over strings produces those payloads |
| PushReply.AppendSegment | pull_options.go:110-130 | the loop over lines gathers one payload |

## Left out

- Sockets, goroutines, TLS handshakes, certificates, key derivation, option validation and logging.
- Ciphers, digests and random numbers are parameters of `DataCodec`, assumed to be inverse to each other and to keep their lengths.
- LZ4 decompression is foreign; an LZ4 block is handed on as it is and leaves the round trip.
- How well the LZO hash finds matches, except in a run of equal bytes.
- Retransmission times. A retransmission puts the same packet on the wire again, which the network of `ControlChannel` already allows; the interval overflows from the 34th on.
- Resets as emitted packets. Arriving resets are handled, but runs of `ControlChannel` start after the reset exchange.
- The capacity of the queue of received chunks, blocking on it, and closing.
- The count of pending acknowledgments and the insertion of a packet are taken as one step.
- The eviction loop of the reassembly map, because it is proved never to be entered; the limits are the default ones.
- Clock readings are parameters; readings within one locked call of the key states are taken as equal.
- Bit fields are numbers: an `or` of disjoint fields is a sum, and 64-bit words are numbers below 2^64.
- The `AwaitingData` status is never set, so that confirming a data key does nothing and is not a step of `RekeySpec`; sequence numbers are unbounded.
- How a local soft reset picks its key ID; a reset may begin for any key ID.
- A key state, its codec, its session manager and its channel carry one sequence number; `DataPacketIDs` keeps codec and manager apart.
- The reports a batch of data packets makes to the observers of written bytes.
- The IPv6 pool, which stops after 65536 addresses, and the rewriting of pushed options.
- Finding addresses in IP packets and routing a datagram to a session, which only read the registries.
- The lifecycle of the server and the connection rate windows. Promotion reads the address and the registries in one step, and a session is given one identity.
- The listeners themselves, which register only new sessions, and for the initial slot only sessions without a reservation; `RegistrySafety.ListenersEnterWell` says that this is enough.
- Codecs that work in place on a buffer with headroom, which do the same to the bytes.
- The packet connection over datagrams, and writes that hand over buffers, which end in `StreamConnection.WriteFrames`, too.
- Text is ASCII.
- More than one reader of a data queue; callbacks that release items are returned lists.
- StreamConnection.StreamPacketConnection.ReadPacket: returns a copy of the packet, where the code first returns a part of the buffer and then copies it.
