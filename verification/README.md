# A verified model of the NAT64 application-level gateway

The gateway translates the packets of IPv6 clients to IPv4 and back. Inside the packets it rewrites
addresses of FTP, HTTP and SIP, which changes lengths; afterwards it repairs TCP sequence numbers,
declared lengths and checksums. The project models these parts and proves what they keep:

- **Splicing** (`Operations`, `Splicing`, `ByteLoop`, `ByteMachine`, `FlowRewrite`). `Splice` says
  declaratively what applying a list of replacements means. `ByteLoop` is the loop of `Flow::modify`,
  for any operations; `ByteMachine` says for which ones it writes the splice.
- **The benchmark** (`ModifyBench`, `SlowTraces`): the block-copy form and the back-to-front form as
  methods over arrays, each compared with the splice.
- **Streams** (`TcpRepair`, `StreamRun`, `StreamPositions`, `ShiftRun`, `ShiftLine`). `doApp` and
  `doExtraTCP` are methods proved against one pure step, `Forward`. The stream theorems are about all
  runs of that step with both directions interleaved; `ShiftRun` has those of SHIFT mode, and
  `ShiftLine` the delay line by itself.
- **Parser hand-off** (`HandOff`) and **worker dispatch** (`Dispatcher`): transition systems whose
  steps are single pipe or lock operations, with theorems about every reachable state.
- **Tables** (`NatTables`, `Analysis44`): port pool, the two NAT64 maps, the 4-4 map, translation.
- **Checksum** (`Checksum`): 32-bit accumulation with folding against 16-bit one's complement sums.
- **Framing and input** (`Parsers`, `HttpFraming`, `Chunks`, `SipRepair`, `SipText`, `SipWritten`,
  `Numerals`, `ScannerInput`, `UrlScanner`): the grammars' actions, chunked bodies, Content-Length, the scanner's
  input, and the URL scanner of `main.cc`.

`Words` and `Buffers` hold the arithmetic of fixed widths and the copying of bytes. Sequence numbers,
ports, bytes and checksum words have their own widths and wrap where the C++ code wraps; text
positions and stream offsets are integers, of which only the residue modulo 2^32 enters a header.

## What the code does not do

Where a promise does not hold for the code as it is, the code is modelled as it is, and a lemma says
exactly when it holds. Where that does not name an input for which it fails, another lemma does.

- `flow.cc:144` looks for the start of an operation once per output byte. An empty replacement
  directly followed by an adjacent operation makes the loop skip the second one
  (`AdjacentAfterEmptyIsLost`; exactly when it is right: `LoopIsSpliceExactly`). A deletion at the end
  of a packet is never consumed (`DeletedEndIsNotConsumed`), and `ops[cnt]` is read past the end as
  soon as a byte is left behind the last operation, which is so for nearly every edited packet
  (`ReplacementReadsPastOps`). For separated operations `SeparatedRun` says exactly when either
  happens. The model guards that read.
- Positions of operations count from the first byte that the parser has read; `flow.cc:80-94` counts
  from the first edited packet, and reads the sequence number after `doApp` has rewritten it. The two
  agree if and only if the parser has started where `init_seq` was recorded (`OffsetExactly` for a
  packet, `PlacedExactly` for runs). For a stateful parser this means that the first packet it reads is
  edited, and that the flow's offset is back at its first value whenever an edit comes
  (`StatefulPlacedExactly`; inputs: `EditBehindUneditedIsLost`, `OffsetAfterGrowthIsWrong`). Stateless
  parsers (flow.cc:26-27), the default of state.h:54-55, start anew with every packet, so that of a
  direction only one packet is edited rightly (`StatelessOnlyOnce`; input:
  `StatelessSecondEditIsLost`). A stateful parser that has ended is replaced by one that counts from
  0 again, to which `PlacedExactly` applies as well.
- A packet in front of the first edited one has a negative offset. If it is edited and reaches up to
  `init_seq`, the HTTP parser appends an end of chunks although no length was declared
  (`TailWithoutLimit`).
- Without SHIFT mode, only TCP mode, and only towards the client, sends bytes that were cut off a full
  packet (`BytesKeptExactly`, `TcpModeKeepsClientStream`; input: `CutBytesAreLost`).
- SHIFT mode carries them on, and loses none as long as no packet behind a cut is edited
  (`ShiftedStream`). An edit is applied to the packet as it came in, without what was carried to it
  (`EditWhileCarryingExactly`, `ShiftedBytesKeptExactly`; input: `EditBehindCutLosesByte`). Both
  directions carry their bytes in one table under sequence numbers, so one may take those of the other
  (`ShiftMixesDirections`; when it cannot: `ApartIsUndisturbed`).
- An acknowledgement of an earlier point is translated with the offset of now, which is right if and
  only if the stream has not grown since (`AckOfEarlierPoint`; input: `DelayedAckIsWrong`).
- The moving limit of `flow.cc:166-177` also counts body edits near the start of the body, and a body
  that shrinks gets no end of chunks; `ChunkFramingExactly` gives the exact condition
  (input: `EditInsideLimitBreaksFraming`). If the header shrinks, the limit stops short of the size
  line (`ShrunkHeaderNeverFrames`).
- The comparison operators of `ip.cc:77-93` compare an address with itself, so `map64_` tells clients
  apart by port only (`KeysAreRepresentatives`). The invariants of the tables hold all the same. The
  round trip holds exactly for packets whose entry is their own client's and server's
  (`RoundTripExactly`), fails as soon as two clients share a port number
  (`AnswerGoesToTheWrongClient`), and holds for a whole run exactly if no two packets with the same
  client port differ (`AllComeBackExactly`, `WrittenKeysApart`).
- For the same reason the packets of a flow may be split over two workers and reordered
  (`ClashSplitsFlow`). `AffinityExactly` says for which flows this cannot happen.
- When the pool is empty `doMapping` returns null, which `nat.cc:161-162` dereferences. This happens
  first when a new key follows as many keys as there are pairs (`NoFlowExactly`, `FirstNullExactly`,
  `AllServedExactly`). The model's `Outbound` drops the packet there.
- Adding an address to the pool twice duplicates its ports (`AddPoolKeepsInvExactly`).
- `packet.cc:136` computes the checksum of the IPv4 header over the whole packet. The header then
  checks if and only if the pseudo-header of its segment happens to count for nothing
  (`HeaderChecksExactly`; input: `HeaderChecksumIsWrong`).
- `modify_slow` does not carry the length, and does not move text to the left: a shrinking operation
  leaves old bytes unless it ends where the text ends that the later ones leave
  (`SlowIsRightExactly` for all lists, `SlowIsRightInClosedForm`; input: `ShrinkingLeavesOldBytes`).
- Two `m=` lines behind one `c=` line replace its address twice (`BodyEditsFitExactly`). The loop then
  applies the first replacement only and copies the rest, so that neither port is replaced
  (`TwoMediaLinesLoseThePorts`); Content-Length still says what is sent (`WrittenLengthExactly`).
- An end tag of a script or text area that was not open makes `ignore` negative, and addresses in all
  later links are left alone (`StrayEndHidesLink`; exactly when: `IgnoreIsFlagExactly`).
- `reRead` of a string loses bytes from 0x80 on, by sign extension, and an empty chunk reads as the
  end (`ReReadRestoresExactly`, `EarlyEndExactly`); `doApp` never passes an empty text on.
- `doApp` is commented out of `translate` (`nat.cc:97`); the model has it enabled. The assignment of
  `len` from Content-Length is commented out (`http/grammar:24-27`); the model takes `len` as given.

## Model

| member | source | states |
|---|---|---|
| `Splicing.FitsMeansOrderedDisjointInRange` | flow.cc:101-131 | The condition under which the loops are verified is exactly: every operation inside the packet, neighbours ordered and disjoint |
| `Splicing.SpliceSplits` | flow.cc:118-161 | Splitting commutes with splicing: at a cut that no operation straddles, the two pieces can be rewritten on their own, the second with an offset larger by the length of the first |
| `Splicing.SpliceFromFront` | flow.cc:132-161 | Seen from the front the splice is the copied bytes, the new data, and the splice of what follows, although it is defined by single replacements, last one first |
| `Operations.SortSorts` | flow.cc:101-103 | Sorting orders by start position and keeps exactly the operations (as a multiset) |
| `Operations.SortIgnoresArrivalOrder` | test/modify/modify.cc:125-127 | With distinct start positions every order of recording gives the same sorted list |
| `Operations.SortedArrangementUnique` | parser.cc:71-73 | With distinct starts there is only one sorted arrangement of a multiset of operations |
| `ByteLoop.LoopIsSpliceExactly` | flow.cc:132-161 | For all contents of the buffer the byte loop writes the splice if and only if the operations are sweepable: no skipped operation (adjacent after an empty replacement) changes anything, or only trailing bytes that are the same anyway |
| `ByteMachine.SeparatedIsSweepable` | flow.cc:143-161 | Operations where no empty replacement touches the next one are always handled |
| `ByteLoop.AdjacentAfterEmptyIsLost` | flow.cc:143-161 | A concrete pair of operations for which the second is skipped and the output differs from the splice |
| `ByteLoop.SeparatedRun` | flow.cc:143-161 | For separated operations every read is inside the packet, without any room behind it; the loop has consumed all bytes and all operations at the end if and only if the last operation does not delete the end of the packet; `ops[cnt]` is read past the end if and only if bytes are left behind the last operation (one more if it is empty) |
| `ByteLoop.RoomRuns` | flow.cc:143-161 | A buffer with room for all new data behind the packet keeps every list of operations that fits inside its bounds |
| `ByteLoop.DeletedEndIsNotConsumed` | flow.cc:143-161 | A deletion at the end of a packet at which the loop stops with the operation and its bytes left over |
| `ByteLoop.ReplacementReadsPastOps` | flow.cc:144 | A one-byte replacement, with a byte behind it, after which `ops[cnt]` is read with `cnt` equal to the size |
| `ByteLoop.FirstPart` | flow.cc:143-161 | Operations that fit and have data are applied up to any point before the next one opens, whatever comes behind |
| `ByteLoop.OverlapIsLost` | flow.cc:143-161 | An operation that starts inside an applied one is lost together with all that come after it: behind the last one applied the packet is copied as it is |
| `ByteLoop.NextByte` | flow.cc:143-161 | One turn of the loop: the byte written and the new `cnt`, `ps` and `inside`, for every state in which its read is inside the buffer |
| `ByteLoop.RewritePayload` | flow.cc:132-161 | For all operations, overlapping ones too, with which the loop reads inside its buffer: the bytes written, the precomputed length, nothing changed behind it, where the loop stops, and whether `ops[cnt]` was read past the end; for separated operations both are given in closed form |
| `ByteLoop.NewLength` | flow.cc:132-139 | The precomputed length is the old length plus all deltas |
| `FlowRewrite.Packet.constructor` | packet.cc:98-118 | A freshly unpacked packet: equal payloads in both buffers, and the four sequence fields |
| `FlowRewrite.Flow.AddOffset` | flow.cc:60-66 | Only the offset of the given direction moves |
| `FlowRewrite.Flow.GetPktOffset` | flow.cc:80-94 | The first packet sets init_seq and gets 0; later ones get the signed 32-bit distance from it; UDP gets 0 |
| `FlowRewrite.Flow.Modify` | flow.cc:96-204 | For all operations that keep the loop inside its buffer: payload, trail, delay line, init_seq, moved limit and returned delta after `modify`, in all branches: no operations, text fits, text cut in SHIFT mode, text cut otherwise |
| `FlowRewrite.Flow.RewriteAndCut` | flow.cc:124-203 | The same from the sorted operations and the packet offset on: loop, limit, tail and cut together |
| `FlowRewrite.RewriteBytes` | flow.cc:132-188 | The complete new text is in the output buffer: byte loop, moved limit and the parser's tail together, overlapping operations included |
| `FlowRewrite.MoveLimit` | flow.cc:166-177 | The limit moves with every operation that ends at or before it |
| `FlowRewrite.ExtendTail` | flow.cc:179-188 | From the limit on, the text is replaced by what the parser makes of it |
| `FlowRewrite.Flow.CutToFit` | flow.cc:190-200 | A TCP packet of more than 1400 bytes that has grown keeps its length, and the excess goes to the delay line or to the trail; every other packet keeps its whole text |
| `FlowRewrite.Flow.Shift` | flow.cc:206-218 | The carried bytes go first; as many bytes are held back under the next sequence number, in place in the buffer |
| `FlowRewrite.DelayBytes` | flow.cc:208-216 | The backward loop moves the bytes without overwriting one before it is moved |
| `FlowRewrite.Flow.Count` | flow.cc:220-242 | A segment is recorded exactly if it is the first or follows the last recorded one modulo 2^32 |
| `StreamPositions.InOrderAllRecorded` | flow.cc:220-242 | Of segments in order and without loss every one is recorded |
| `StreamPositions.RecordedExactly` | flow.cc:220-242 | A segment is recorded if and only if it is the first or starts where the last one recorded ends, modulo 2^32 |
| `ShiftLine.DelayLineConserves` | flow.cc:206-218 | Over any chain of segments not shorter than the carry: outputs followed by the final carry are the first carry followed by the inputs, and the carry keeps its length |
| `ShiftLine.OutputsKeepTheirLength` | flow.cc:206-218 | Every output of such a chain has the length of its input |
| `ShiftLine.ReplayIsIdempotent` | flow.cc:206-218 | Sending any earlier segment again, after a chain shorter than 2^32 bytes, gives the same bytes and leaves the delay line as it was |
| `ShiftLine.CutTextIsDelivered` | flow.cc:190-194 | Started by a packet cut in `modify`, the chain delivers the whole rewritten text and then the inputs |
| `TcpRepair.ChooseOperations` | nat.cc:277-319 | Without a remembered protocol the first one whose parser edits is chosen and remembered; else a single recognising one is remembered; a remembered protocol is kept, and its parser's answer alone is returned, edits or none |
| `TcpRepair.TryAll` | nat.cc:283-309 | The loop over all protocols stops at the first one that edits; it returns no operations if and only if no protocol of the packet's transport edits |
| `TcpRepair.LoneGuess` | nat.cc:302-318 | A protocol is remembered without edits if and only if it alone recognises the text |
| `TcpRepair.Nat.RewriteHeader` | nat.cc:242-253 | The sequence number grows by the own offset, the acknowledgement shrinks by the other direction's, modulo 2^32 |
| `TcpRepair.Nat.DoApp` | nat.cc:220-331 | Header, payload, flow, recorded segments and the modified flag after doApp in every mode for TCP and UDP, in the branches empty payload, ignored flow, no operations, operations; a UDP packet and a TCP packet of up to 1400 bytes leave with the whole rewritten text |
| `TcpRepair.Nat.TakeOver` | nat.cc:258-274 | In SHIFT mode what is carried to the packet goes first and as much is held back; the segment is recorded |
| `TcpRepair.Nat.ApplyEdits` | nat.cc:324-329 | The flow's offset grows by what `modify` returns |
| `TcpRepair.UdpIsNeverCut` | flow.cc:190 | In every mode a UDP packet leaves doApp with the whole rewritten text, however long |
| `TcpRepair.OnlyFullPacketsAreCut` | flow.cc:190-203 | A TCP packet is cut if and only if it has grown from more than 1400 bytes; otherwise its text is whole and the offset moves by the growth |
| `TcpRepair.PassedOnUnchanged` | nat.cc:254-274 | Without a payload, in an ignored flow, or without operations outside SHIFT mode, only the two header fields are translated, and the flow stays as it is |
| `TcpRepair.Nat.DoExtraTcp` | nat.cc:45-70 | When the extra segment is made, what it carries, its sequence number, and that it is made once |
| `TcpRepair.Nat.Translate` | nat.cc:94-133 | A TCP packet through doApp and the sends, in every mode: flow and segments sent are those of the pure step `Forward` |
| `TcpRepair.Nat.SendSegments` | nat.cc:113-133 | The segments sent after doApp, the extra one of TCP mode included, and the flow afterwards |
| `StreamRun.Deliver` | nat.cc:72-133 | In every mode, for any parser and any pending limit: `Translate` on the packet unpacked from a segment leaves the flow and sends the segments of the step that all run theorems are about |
| `StreamRun.RoomIsAcceptable` | flow.cc:143-161 | Every list of operations that fits its packet meets the condition of those theorems if the buffer has room for the new data |
| `StreamRun.StreamPreserved` | nat.cc:220-331 | Outside SHIFT mode, over every run in which a direction's segments are in order and loss-free (the other direction arbitrary) and no cut bytes are dropped: the segments sent, put in sequence order, have no gap or overlap modulo 2^32, carry exactly the texts that `modify` writes, tails of the parser included, and the next byte is the sender's plus the offset |
| `StreamRun.TcpModeKeepsClientStream` | nat.cc:116-132 | In TCP mode no run ever drops a byte towards the client |
| `StreamRun.BytesKeptExactly` | flow.cc:190-200 | Outside SHIFT mode, in either direction: all bytes of the rewritten stream are sent if and only if no packet was cut or every cut was sent as an extra segment |
| `StreamRun.CutBytesAreLost` | flow.cc:190-200 | A payload of 1401 bytes with one inserted: outside TCP mode and SHIFT mode one byte of the stream is never sent |
| `StreamRun.OffsetTracksGrowth` | nat.cc:324-329 | After any such run the sender's position plus the offset has moved by the length of the rewritten stream |
| `StreamRun.AckOfEverythingIsExact` | nat.cc:246-252 | An acknowledgement of all bytes sent in a direction is rewritten to the sender's own next sequence number |
| `StreamRun.AckOfEarlierPoint` | nat.cc:246-252 | Over every run r1 followed by r2: the acknowledgement of all that was sent in r1 is rewritten, after r2, to the sender's position after r1 if and only if r2 has grown the stream by a multiple of 2^32 |
| `StreamRun.RunSplits` | nat.cc:94-133 | A run of two parts is the second from where the first leaves the connection, so the theorem covers every cut of every run |
| `StreamRun.DelayedAckIsWrong` | nat.cc:246-252 | A two-packet run in which the delayed acknowledgement of the first packet reaches the sender one byte too low |
| `StreamRun.TextIsSplice` | flow.cc:96-188 | For operations that fit and are sweepable that text is the splice, from the moved limit on replaced by what the parser makes of it |
| `StreamPositions.PacketOffsetExactly` | flow.cc:80-94 | The packet offset is the distance from the first edited segment in the sender's numbers if and only if the flow's offset is what it was when init_seq was recorded |
| `StreamPositions.OffsetIsSignedDistance` | flow.cc:80-94 | The packet offset is the distance from init_seq modulo 2^32, as a signed 32-bit number |
| `StreamPositions.OffsetExactly` | flow.cc:80-94 | A packet is given the position that its parser has for it if and only if the number under which the parser's first byte would go out now is init_seq, or, at the first edited packet, the parser starts with it |
| `StreamPositions.PlacedExactly` | flow.cc:80-94 | Over every run and whatever the parsers count from: all edited packets are placed rightly if and only if that holds at each of them |
| `StreamPositions.StatefulPlacedExactly` | flow.cc:29-32 | A stateful parser, in a flow not edited before: all its edits are placed rightly if and only if the first edited packet is the first that it reads and the flow's offset is back at its first value at each edit |
| `StreamPositions.StatelessPlacedExactly` | flow.cc:26-27 | Stateless parsers: if and only if all edited packets go out under one sequence number |
| `StreamPositions.StatelessOnlyOnce` | flow.cc:26-27 | In a flow not edited before, as long as its numbers do not wrap, that is if and only if at most one packet of the direction is edited |
| `StreamPositions.StatelessSecondEditIsLost` | flow.cc:26-27 | A two-packet run with the same edit in both packets, of which the second is lost |
| `StreamPositions.EditBehindUneditedIsLost` | flow.cc:80-94 | A two-packet run of a stateful parser in which the first packet is not edited and the edit of the second is lost |
| `StreamPositions.OffsetAfterGrowthIsWrong` | flow.cc:80-94 | A two-packet run of a stateful parser in which the second edit lands one byte off, because the sequence number read is the rewritten one |
| `StreamPositions.PlacedEditsSpliceTheStream` | flow.cc:118-161 | In every run whose edits are placed rightly, rewriting packet by packet is rewriting the whole stream at once, with every operation moved from its parser's position to that of the stream |
| `StreamPositions.RewritingIsRelative` | flow.cc:118-188 | What `modify` makes of a packet, tail included, is the same wherever in the stream it is: offset, operations and limit may all be moved by as much |
| `StreamPositions.TailWithoutLimit` | flow.cc:166-188 | Without a declared length the HTTP parser appends nothing if and only if the packet does not start so far in front of init_seq that its bytes reach up to the unset limit; other parsers append nothing |
| `StreamPositions.NeutralEditsPlacedExactly` | flow.cc:80-94 | A stateful parser from the first packet of a flow on, of whose edited packets only the last may change its length: its edits are placed rightly if and only if the first packet with a payload is edited, or none is |
| `StreamPositions.NeutralEditsSpliceTheStream` | flow.cc:118-161 | If so, rewriting packet by packet is rewriting the whole stream at once, with the operations just as the parser returned them |
| `StreamPositions.RecordedIsChained` | flow.cc:220-242 | What `count` records is always a chain without gap |
| `StreamPositions.RecordedOffsets` | flow.cc:220-242 | For recorded segments the packet offset is the sum of the earlier lengths modulo 2^32, as a signed number |
| `ShiftRun.ShiftedStream` | flow.cc:190-218 | SHIFT mode, over every run in which no packet behind a cut is edited or shorter than what is carried to it, with the other direction interleaved: the segments sent have no gap or overlap, and their bytes followed by what is still carried are the rewritten stream |
| `ShiftRun.ApartIsUndisturbed` | flow.cc:206-218 | The run finds only its own carried bytes if it is in order, shorter than 2^32 bytes, and the other direction carries nothing to its numbers |
| `ShiftRun.ShiftedBytesKeptExactly` | flow.cc:190-218 | The number of bytes sent and still carried is that of the rewritten stream if and only if no packet to which bytes are carried is cut |
| `ShiftRun.EditWhileCarryingExactly` | nat.cc:258-328 | An edited packet keeps every byte, for every payload, if and only if nothing is carried to it |
| `ShiftRun.CutIsCarried` | flow.cc:190-194 | The last byte of a full packet that grows by one is carried to the next sequence number |
| `ShiftRun.EditBehindCutLosesByte` | nat.cc:258-328 | An edited packet behind the cut one, with which the carried byte is never sent and another is sent twice |
| `ShiftRun.ShiftMixesDirections` | flow.cc:206-218 | A segment of the other direction with that number, which takes over the byte |
| `ModifyBench.Bench.ModifyNosort` | test/modify/modify.cc:90-123 | The block form writes the splice for every layout, and the new length; without operations it writes nothing |
| `ModifyBench.Bench.Modify` | test/modify/modify.cc:125-161 | The sorting block form: the splice of the sorted operations |
| `ModifyBench.Bench.ModifySlow` | test/modify/modify.cc:77-88 | The in-place form, byte by byte, is `SlowRun` |
| `ModifyBench.SlowIsSpliceOnPrefix` | test/modify/modify.cc:77-88 | As written, the in-place form agrees with the splice on the first `len` bytes plus the first operation's delta, if no operation shrinks |
| `ModifyBench.SlowIsSpliceExactly` | test/modify/modify.cc:77-88 | The whole result is the splice, for every previous buffer contents, if and only if at most one operation grows (none shrinking) |
| `ModifyBench.ShrinkingLeavesOldBytes` | test/modify/modify.cc:80-87 | A shrinking operation leaves old bytes in the result |
| `SlowTraces.SlowIsRightExactly` | test/modify/modify.cc:77-88 | For all lists, shrinking operations included: the result is the splice for every text and buffer if and only if every byte comes from where the splice takes it, which the operations alone decide |
| `SlowTraces.SlowIsRightInClosedForm` | test/modify/modify.cc:77-88 | For lists in which nothing shrinks behind two growing operations this is: what follows a growing operation does not grow in sum, and a shrinking one ends where the text ends that the later ones leave |
| `SlowTraces.RightByLuck` | test/modify/modify.cc:77-88 | A list outside that condition that comes out right all the same |
| `SlowTraces.CarriedIsSplice` | test/modify/modify.cc:80-87 | With the length carried from one operation to the next the loop is right for all operations that do not shrink |
| `HandOff.NeverBothOwn` | communicator.cc:40-96 | In no reachable state can both threads touch `data_` or `ops` |
| `HandOff.ChunksArriveOnceInOrder` | communicator.cc:40-96 | In every reachable state the parser has received the submitted chunks once and in order, but for a last unread one; every chunk reported as accepted was received; total_len is the sum of lengths |
| `HandOff.OperationsAreReturnedOnce` | parser.cc:30-37 | Operations emitted are returned by `process` once and in order, or still wait |
| `HandOff.NothingDeliveredPastEnd` | communicator.cc:67-79 | In every run, a chunk is handed over only if the end that the parser has set last is not positive or exceeds the number of bytes received |
| `HandOff.RefusedExactly` | communicator.cc:67-79 | A parser that asks for more is answered QUIT if and only if the bytes received have reached the positive end that it has set last |
| `HandOff.EveryChunkIsAnnounced` | communicator.cc:40-111 | Every chunk submitted is announced to the parser exactly once, whatever its first answer was, or is about to be |
| `HandOff.QuitBeforeClosed` | communicator.cc:117-126 | A parser thread that has left has written QUIT before closing its pipe |
| `HandOff.WaitingAlwaysMoves` | communicator.cc:48-66 | While the packet thread waits, it finds a message or a closed pipe, or the parser thread can step |
| `HandOff.EndIsFinal` | parser.cc:30-37 | After the end was reported nothing is submitted or returned any more |
| `NatTables.KeysAreRepresentatives` | ip.cc:77-93 | As written two keys of map64_ are the same exactly if the client ports are equal; as intended exactly if the keys are equal |
| `NatTables.EmbedExtract` | state.cc:153-173 | Embedding and extracting an IPv4 address are inverse exactly on the prefix (section 2.2 of RFC 6052) |
| `NatTables.AddPoolKeepsInvExactly` | state.cc:64-70 | Adding an address keeps all invariants if and only if the address is new |
| `NatTables.DoMappingKeepsInv` | state.cc:72-93 | Mapping keeps all invariants, with a free port or without |
| `NatTables.MapsMirrorEachOther` | state.cc:72-121 | After every run of events a flow is in map64_ exactly if map46_ finds it under its own IPv4 key |
| `NatTables.FreeOrAllocated` | state.cc:64-93 | After every run of events the pairs added (28001 per address) are exactly the free and the allocated ones, and none is both |
| `NatTables.RunKeepsInv` | state.cc:64-93 | The invariants hold after every run of additions of distinct addresses and mappings |
| `NatTables.FlowsPersist` | state.cc:72-93 | Flows are never forgotten or changed by later events |
| `NatTables.PoolIsAQueue` | state.cc:64-93 | After every run of events the pairs given to flows, in order, followed by the free ones are all pairs in the order of their addition |
| `NatTables.PortsInOrder` | state.cc:64-70 | Of an address the 28001 ports from 32000 on, in host order ascending |
| `NatTables.OutboundExactly` | nat.cc:72-83 | A client's packet from outside the prefix changes nothing and is dropped; one inside goes to the server that its destination embeds, at its port, from an allocated pair, if and only if its key has a flow or a pair is free |
| `NatTables.InboundExactly` | nat.cc:72-83 | A server's packet gets through if and only if a flow has its destination as pair and its source as server, and then to that flow's client |
| `NatTables.NoFlowExactly` | state.cc:72-93 | No flow is given if and only if the key is new and there are as many entries as 28001 times the addresses |
| `NatTables.FirstNullExactly` | nat.cc:161-162 | After every run without it, null comes next if and only if a new key follows as many distinct keys as there are pairs |
| `NatTables.AllServedExactly` | state.cc:72-93 | Every mapping of a run gives a flow if and only if each new key comes when fewer keys than pairs have been mapped |
| `NatTables.RoundTripExactly` | nat.cc:157-213 | After any later events a server's answer comes back to the client's address and port, from the server's IPv6 address, if and only if the table before the packet has an entry of this client and server under its key, or none and a pair is free |
| `NatTables.RoundTrip` | nat.cc:157-213 | With the intended comparison it comes back if and only if the client and server have an entry or a pair is free |
| `NatTables.AllComeBackExactly` | nat.cc:157-213 | Over every run from empty tables, all answers come back if and only if there are always enough pairs and no two packets under one key differ in client or server |
| `NatTables.WrittenKeysApart` | ip.cc:77-93 | As written, the latter means that packets with the same client port are of one client and to one server; as intended it always holds |
| `NatTables.AnswerGoesToTheWrongClient` | ip.cc:79-93 | With the comparison as written, a second client with the same port gets the first one's flow, and the answer goes to the first |
| `NatTables.StateManager.AddIPv4Pool` | state.cc:64-70 | The loop appends the ports 32000 to 60000 in network order |
| `NatTables.StateManager.DoMapping` | state.cc:72-93 | Queue, maps and result after a mapping: found, new, or none left |
| `NatTables.StateManager.GetMapping6` | state.cc:95-107 | Found exactly if the key is present |
| `NatTables.StateManager.GetMapping4` | state.cc:109-121 | The flow under the IPv4 key, or none |
| `Analysis44.Table44.DoMapping44` | state.cc:123-146 | Table, count and result: a known connection is found in either direction, a new one is entered with the end of port 80 as server |
| `Analysis44.DirectionsShareOneFlow` | state.cc:123-146 | Over every later run both directions share one flow, and if one end alone has port 80 it is the server |
| `Analysis44.FirstPacketDecides` | state.cc:123-146 | Of a new connection the destination of its first packet is the server, unless the source alone has port 80; other connections stay as they are |
| `Dispatcher.FlowStaysWithOneWorker` | tun.h:107-121 | Under either comparison: over every run whose flows do not clash (same key, different worker by their ports) all packets of a flow, in both directions, are translated by its one worker |
| `Dispatcher.FlowIsProcessedInOrder` | tun.h:33-46 | Then those translated, followed by those on their way, are exactly those that arrived, in order |
| `Dispatcher.ClashSplitsFlow` | packet.cc:143-163 | For every two flows that clash, a run in which one of them is translated by two workers and in the wrong order |
| `Dispatcher.AffinityExactly` | tun.h:107-121 | For every set of flows: in all runs each flow keeps one worker if and only if no two of them clash, and the same holds for arrival order |
| `Dispatcher.WrittenClashesExactly` | ip.cc:77-93 | As written, flows clash if and only if their client ports are equal and their workers differ |
| `Dispatcher.IntendedKeepsApart` | ip.cc:77-93 | As intended, flows of clients that use one port per server never clash |
| `Dispatcher.FirstPacketGoesByPorts` | packet.cc:107 | The first packet of a flow, and every packet of none, goes to the worker numbered by the sum of its two ports in host order, modulo 4 |
| `Dispatcher.EntriesPersist` | state.cc:72-93 | In every run an entry once made keeps its flow and its worker |
| `Dispatcher.QueuesAreBounded` | tun.h:115-121 | No queue ever holds more than QMAX + 1 packets |
| `Dispatcher.FullQueueDrains` | tun.h:115-118 | While the dispatcher waits for room, the worker of that queue can step |
| `Checksum.FoldKeepsResidue` | packet.cc:37-39 | A fold keeps the value modulo 65535 and gets smaller, so the carry loop ends |
| `Checksum.FoldedSumIsOnesSum` | packet.cc:14-41 | Folding the plain sum at the end is 16-bit one's complement addition word by word (RFC 1071 sections 1 and 2) |
| `Checksum.ByteOrderIndependence` | packet.cc:14-41 | Little-endian loads and stores give the network-order checksum (section 2 (B) of RFC 1071) |
| `Checksum.StoredComplementChecks` | packet.cc:129-141 | Adding the complement of the folded sum makes the complement of the folded sum 0 |
| `Checksum.TcpChecksumIsOnesSum` | packet.cc:9-43 | The value is the complement of the one's complement sum over segment and pseudo-header |
| `Checksum.WordsCountEveryByte` | packet.cc:14-26 | The sum of the words counts every byte, those at odd places 256 times, for odd lengths as well as even ones |
| `Checksum.ByteErrorsAreDetected` | packet.cc:9-43 | Changing any one byte of a segment, of odd or even length, changes its checksum |
| `Checksum.SumBuffer` | packet.cc:14-26 | For every length, even or odd, the 32-bit accumulator never overflows and stands for the true sum of all bytes modulo 65535 |
| `Checksum.AddFolding` | packet.cc:18-20 | One word added, with the conditional fold, without overflow |
| `Checksum.AccumulatedStands` | packet.cc:17-26 | Accumulating with conditional folds stays below 2^31 + 256 and keeps the residue of the true sum, and zero only for zero |
| `Checksum.AddCarries` | packet.cc:37-39 | The loop ends with the fully folded word |
| `Checksum.TcpChecksum` | packet.cc:9-43 | The method returns the checksum of segment and pseudo-header, without overflow |
| `Checksum.IpChecksum` | packet.cc:45-69 | The method returns the complement of the one's complement sum of the buffer |
| `Checksum.UpdateChecksum` | packet.cc:131-139 | After the update of a transport header, recomputing over segment and pseudo-header gives 0; no other byte changes |
| `Checksum.HeaderChecksExactly` | packet.cc:129-141 | The IPv4 header checksum, computed over the whole packet after the segment's, makes the header check if and only if the segment's pseudo-header is 0 modulo 65535 |
| `Checksum.HeaderChecksumIsWrong` | packet.cc:136 | A 20-byte segment from 10.0.0.1 to 10.0.0.2 whose packet gets a wrong header checksum |
| `Checksum.UpdateIpChecksum` | packet.cc:136 | The method stores that checksum in the header and changes nothing else |
| `Parsers.Parser.AddOperation` | parser.cc:50-57 | The operation is appended |
| `Parsers.Parser.TotalDelta` | parser.cc:63-69 | The loop returns the growth of the counted operations |
| `Parsers.Parser.TakeOperations` | parser.cc:30-37 | Operations are handed over and cleared; the end is noted |
| `HttpFraming.HttpGrammar.EmptyLine` | http/grammar:39-50 | Operation and limits recorded at the empty line, chunked or not |
| `HttpFraming.HttpGrammar.BeginTag` | http/HTTPParser.h:58-66 | The method makes the step of the tag runs: which tag is remembered and when ignoring starts |
| `HttpFraming.HttpGrammar.EndTag` | http/HTTPParser.h:67-72 | The method makes the step of the tag runs, with its unguarded decrement |
| `HttpFraming.IgnoreIsFlagExactly` | http/HTTPParser.h:58-72 | Over every run of tags `ignore` stays 0 or 1 if and only if no hiding end tag comes while nothing is hidden |
| `HttpFraming.NegativeIgnoreFreezes` | http/HTTPParser.h:58-72 | Once negative, it stays so and the current tag never changes again |
| `HttpFraming.StrayEndFreezesReports` | http/HTTPParser.h:58-91 | After a stray hiding end tag every later address is treated as at that tag, whatever tags follow |
| `HttpFraming.StrayEndHidesLink` | http/HTTPParser.h:58-91 | A stray script end tag after which the address of a link is not rewritten |
| `HttpFraming.LinksInsideAreHidden` | http/HTTPParser.h:58-91 | The address of a link inside a script or a text area is not rewritten, that of one behind it is |
| `HttpFraming.HttpGrammar.ReportIp` | http/HTTPParser.h:73-91 | Inside an anchor the address is replaced with bars for dots, elsewhere nothing is recorded |
| `HttpFraming.ReportedIpIsNeutral` | http/HTTPParser.h:73-91 | That edit keeps the length |
| `HttpFraming.Barred` | http/HTTPParser.h:79-83 | Every dot becomes a bar, every other character stays |
| `Chunks.DecodeWithTail` | http/HTTPParser.h:30-40 | Size line, first chunk and the tail of getContentLengthExceed decode to the first chunk followed by the excess (section 4.1 of RFC 7230) |
| `Chunks.TailDecodesExactly` | http/HTTPParser.h:30-40 | For every body, declared length and place of the tail: what is sent decodes to the body if and only if the tail starts where the declared length ends and the body reaches it |
| `HttpFraming.ChunkFramingExactly` | flow.cc:166-188 | For every message in one packet whose header edits do not shrink, and all body edits: what follows the rewritten header decodes to the rewritten body if and only if the limit, moved over the body edits, is where it was, and the body has not become shorter |
| `HttpFraming.FramingByLimit` | flow.cc:166-188 | The same for any header edits: the moved limit must be at the start of the rewritten body |
| `HttpFraming.ShrunkHeaderNeverFrames` | flow.cc:166-177 | If the header shrinks and the limit follows all its edits, a body that is not shorter than its size line is never framed rightly |
| `HttpFraming.EditInsideLimitBreaksFraming` | flow.cc:166-177 | A growing body edit inside the moved limit after which nothing decodes to the rewritten body |
| `HttpFraming.WrittenIsSent` | flow.cc:132-188 | The text of the framing theorem is what `modify` writes for sweepable operations |
| `Numerals.ValueOfPrint` | http/grammar:45-46 | Printing in hexadecimal or decimal and reading back gives the number |
| `SipRepair.Scanner.PostCode` | sip/SIPScanner.h:65-70 | After every match the token holds its text and stands, at its recorded position, in all that has been scanned |
| `SipRepair.Scanner.Scan` | sip/SIPScanner.h:65-70 | A scan of any matches leaves tokens that each stand at their recorded positions in the scanned text |
| `SipRepair.TokensStandInText` | sip/SIPScanner.h:65-70 | Every token of a scan is found in the text at its recorded position |
| `SipRepair.JoinStandsExactly` | common/tokentype.h:17-25 | Joining tokens with a separator gives a true token if and only if the separator is what stands between them |
| `SipRepair.SipGrammar.OnHeader` | sip/grammar:23-27 | Only Content-Length is remembered |
| `SipRepair.SipGrammar.OnAddress` | sip/grammar:28-41 | Address and port of Via and Contact are replaced, uncounted |
| `SipRepair.SipGrammar.OnConnection` | sip/grammar:53-57 | The address is remembered, its family replaced, counted |
| `SipRepair.SipGrammar.OnMedia` | sip/grammar:58-66 | With a remembered address, address and port are replaced, counted |
| `SipRepair.SipGrammar.OnMessage` | sip/grammar:11-16 | At the end Content-Length is replaced by itself plus the counted growth |
| `SipRepair.RunRecords` | sip/grammar:11-66 | What any run of the actions leaves in ops, c_ip_ and content_len_ |
| `SipRepair.BodyEditsFitExactly` | sip/grammar:53-66 | The edits of a session description are disjoint if and only if no address of a c= line serves two m= lines |
| `SipRepair.LengthHeaderSplits` | sip/grammar:23-27 | A message with the header has one that decides; the lines before and after it are laid out around it |
| `SipRepair.MessageFitsExactly` | sip/grammar:11-16 | The same for all operations of a message; if so, sorting puts the length edit, recorded last, in its place among the header's |
| `SipRepair.LengthRepairedExactly` | sip/grammar:11-16 | In the rewritten message the Content-Length value reads as the length of the rewritten body if and only if the original value read as the length of the original body |
| `SipText.HeaderText` | sip/grammar:23-41 | The operations of any header lines make the text in which, read from left to right, each Via or Contact address and port is replaced by the mapped address and port |
| `SipText.AddressIsReplaced` | sip/grammar:28-41 | One such header, with any texts around its two tokens |
| `SipText.BodyText` | sip/grammar:53-66 | The operations of a description make the text in which each family is IP4, and each address and port are the mapped ones of the m= line that it serves |
| `SipText.MessageText` | sip/grammar:11-66 | The whole rewritten message as header, repaired length, header and description, each as above; the length is right if and only if the original one was |
| `SipWritten.WrittenLengthExactly` | sip/grammar:11-16 | For any session description, overlapping edits included: the byte loop writes the header with the repaired value, and that value reads as the length of what is written behind the header if and only if the original value was right |
| `SipWritten.TwoMediaLinesLoseThePorts` | sip/grammar:53-66 | One c= line with two m= lines: the address is replaced once, and behind it the packet is copied as it is, so that neither port is replaced |
| `Numerals.ScanIntOfPrintInt` | common/tokentype.h:26-32 | What %d prints, %d reads back |
| `Numerals.ScanIntSkips` | common/tokentype.h:26-32 | Also behind blanks, and in front of anything that does not go on with a digit |
| `ScannerInput.GetTakesOne` | http/input.h:24-35 | For non-empty chunks `get` returns and takes off the next byte of everything still to come, or the end, and counts newlines |
| `ScannerInput.EarlyEndExactly` | http/input.h:58-80 | The end is reported before the end exactly if the next chunk is empty |
| `ScannerInput.EmptyChunkIsUsedUp` | http/input.h:58-80 | The empty chunk reads as the end once, and reading goes on with the chunk behind it |
| `ScannerInput.ReReadRestoresExactly` | http/input.h:45-48 | Text is put back unharmed if and only if all its bytes are below 0x80 |
| `ScannerInput.ReReadPutsBack` | http/input.h:36-48 | Which bytes come back, and that the line number goes back by all newlines |
| `ScannerInput.SegmentationIndependence` | http/input.h:24-80 | However a stream is cut into non-empty chunks, any interleaving of `get` and re-reading yields its characters, and the line number is the net number of newlines |
| `ScannerInput.Input.NextChar` | http/input.h:58-80 | The method changes the object as `Next` says |
| `ScannerInput.Input.GetChar` | http/input.h:24-35 | The method changes the object as `Get` says |
| `ScannerInput.Input.ReReadChar` | http/input.h:36-43 | The method changes the object as `ReRead` says |
| `ScannerInput.Input.ReReadFrom` | http/input.h:45-48 | The loop re-reads the text from the index on |
| `UrlScanner.Parse` | main.cc:42-103 | Returns 1 exactly if the buffer holds "http://" and four dot-separated groups of one to three digits; all reads in bounds |
| `UrlScanner.LiteralUrlExactly` | main.cc:42-103 | Such a text is exactly the scheme, three numbers of one to three digits each with a dot behind it, a digit, and anything |
| `UrlScanner.MatchAt` | main.cc:44-93 | The nested loops decide this for one position |
| `UrlScanner.GroupIsGreedy` | main.cc:48-58 | Taking as many digits as possible loses no match |

## Left out

- Sockets, netfilter, TUN setup, pcap reading, signals, timing counters, dumps and printing: input and output.
- Scanner tables and grammar recognition: generated code. Grammar actions are modelled as producers of operations, the parser thread as nondeterministic, the end-of-input constant as any value that is no character.
- The action for HTTP header lines (`http/grammar:22-37`): it only sets `chunked`, with `find` called on a bool; `chunked` is a field that may have any value in `EmptyLine`.
- The two threads of `HandOff` and the dispatcher and workers of `Dispatcher` are values in a step relation, not objects: their interleaving is the point, and a method runs alone.
- JSON configuration and textual addresses: library code. Addresses are tuples of words, mapped addresses and ports in SIP operations are given texts.
- FlowRewrite.Flow.Modify: the reads must stay inside the input buffer and the result inside the output buffer, which `modify` does not check; the value of `ops[cnt]` past the end is not modelled.
- FlowRewrite.Flow.Shift: asks that the segment is not shorter than the carried bytes; the code would move bytes from before the buffer otherwise.
- FlowRewrite.Packet.constructor: of `unpack` only the two payloads and the sequence fields; which headers are read at which offset is left out.
- TcpRepair.ChooseOperations: what `getParser` and `process` return for each protocol is an argument; where a parser counts from (flow.cc:21-49) is the position in the `Arrival` of `StreamRun`.
- TcpRepair.Nat.DoApp: outside analysis mode; the answer of the chosen parser is an argument, which `ChooseOperations` returns; in SHIFT mode the packet must not be shorter than what is carried to it, as in `FlowRewrite.Flow.Shift`.
- TcpRepair.Nat.Translate: doApp and the sends; the range check, the mapping and the rewriting of ports and addresses are `NatTables.Outbound` and `NatTables.Inbound`, and TCP flags are not looked at.
- StreamRun.StreamPreserved: in-order, loss-free segments in the direction it speaks of; retransmission of modified segments is not modelled, of delayed ones it is (`ReplayIsIdempotent`). SHIFT mode is `ShiftedStream`.
- StreamPositions.NeutralEditsSpliceTheStream: packets to which the HTTP parser appends a tail are excluded, as the tail is not an operation of the stream; outside SHIFT mode.
- HttpFraming.ChunkFramingExactly: one packet holds the message; for header edits that shrink, of which the grammar records none, `FramingByLimit` asks that the tail does not start in front of the rewritten body.
- SipRepair.LengthRepairedExactly: the message is parsed in one piece, so that no operation is taken before its end; a value without digits, for which `sscanf` leaves its variable unset, reads as 0. Descriptions with overlapping edits are in `WrittenLengthExactly`.
- SlowTraces.SlowIsRightInClosedForm: lists in which something shrinks behind two growing operations are decided by `SlowIsRightExactly` only; there old bytes may be right by luck (`RightByLuck`).
- Operations.SortSorts: `std::sort` is modelled as a stable sort; this matters only for equal start positions, whose order the standard leaves open.
- Checksum.UpdateChecksum: one transport header on a little-endian host; neither the UDP rule for a zero checksum nor the checksum of the extra segment is handled by the code.
- Dispatcher.FlowStaysWithOneWorker: a server answers only after a packet was sent to it, and an answer that finds no flow is dropped and counts as no flow's; locks are atomic steps, the sleeps of the two loops are not steps, and the pool is never exhausted.
- NatTables.StateManager.DoMapping: the lookup uses one representative key for all keys that the map's order takes for the same, instead of the map's tree; the lock is one atomic step.
- NatTables.Outbound: addresses, ports and the range check only; the header bytes that `make_ip4pkt` and `make_ip6pkt` write are left out.
- Packet unpacking except the sequence fields, `setTransportLen` beyond the stored length, `StatelessCommunicator` beyond the streams it hands out, `getParser`, flow counters and `finish`: little to prove.
