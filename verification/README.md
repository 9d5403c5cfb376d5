# Transport core of quiche: a verified model

quiche is a QUIC transport (RFC 9000, RFC 9001); this fork adds frames for forward error
correction.  The project models six parts of it in Dafny and proves what they promise, over
all inputs and over whole runs.

- **Connection IDs** (`Cid`, `CidSourceRuns`, `CidLink`, `CidReachability`, `CidReordering`,
  `CidReceiver`, `CidOutcomes`, `CidObject`).  Issuing and retiring connection IDs at one endpoint, and the protocol that two
  endpoints form: frames that announce IDs arrive in order, frames that retire them arrive
  whenever the network likes.  The main result accounts for every ID in exactly one place and
  shows that no call made for the peer fails.  Frames that are lost or arrive out of order are
  treated on their own: a receiver answers for every number that reached it, in whatever order.
- **Range sets** (`Ranges`, `RangeSets`).  One set of numbers in two forms, a sorted vector and
  an ordered map, with merging, eviction and switching between the forms.  Both forms refine
  the same list of separated ranges, which is determined by the values it covers as long as no
  range is empty.
- **Wire codecs** (`Octets`, `Buffers`, `Frames`, `FrameRoundTrip`, `FrameAcceptance`, `FrameWire`,
  `FrameCodec`).  Variable-length integers, all frames whose layout is in this repository, and whole
  payloads.  `FrameWire` states the bytes themselves, apart from the functions that write and read.
- **Packets** (`PacketNumbers`, `PacketWindow`, `PacketHeader`, `HeaderWire`, `HeaderProtection`,
  `ProtectionWire`).  Packet number truncation and recovery, the duplicate window, the header codec, and the complete path of a
  header from one endpoint to the other under an arbitrary mask function.
- **Paths** (`Paths`, `PathHistory`, `PathTable`, `PathEvents`, `PathObjects`).  Validation of one path
  and the table of paths.  `PathHistory` says from the calls alone what is in flight, when a path
  fails and when it is validated; `PathEvents` gives the exact events of every operation.
- **Estimators** (`Minmax`, `FlowControl`).  The windowed minimum and maximum tracker, and the
  receive window.

Code that changes its state in place is modelled by classes, arrays and loops.  Every such
method is proved equal to a function on values, and the properties are proved about these
functions.  Bytes are the integers below 256; bit masks are written with division and
remainder, and exclusive or is defined bit by bit.

Ten promises do not hold of the code as it is.  In each case the model keeps the code, shows an
input that breaks the promise, and proves exactly when the promise is kept:

- The comment on `new_scid` (quiche/src/cid.rs:342-344) promises an error when the ID to be
  retired is still unannounced.  The code returns Ok, and the queued frame then asks for its own
  retirement, which the peer rejects (`CidLink.ForcedRetirement`,
  `CidReachability.UnannouncedIsReachable`).
- A lost NEW_CONNECTION_ID is announced again with the Retire Prior To of that time.  The peer
  rejects it if its own ID is to be retired by then (`CidReachability.RebuiltFrameIff`,
  `CidReachability.RebuiltFrameIsRejected`).
- Section 19.15 of RFC 9000 asks for the retirement of all IDs below Retire Prior To.  `new_dcid`
  searches a queue in the order of arrival as if it were sorted (`CidReordering.RetiresExactlyIff`,
  `CidReordering.ReorderedArrival`).
- The peer's limit bounds the usable IDs.  A limit that is lowered later does not
  (`CidSourceRuns.WithinLimitIff`, `CidSourceRuns.LoweringTheLimitBreaksIt`).
- Frames are read back as they were written.  Data of 16384 bytes and more is written with a length
  that cannot describe it (`FrameAcceptance.RoundTripIff`, `FrameAcceptance.LongestPlusOne`).
- Section 17.1 of RFC 9000 asks for a packet number field that can represent more than twice the
  range of unacknowledged packets; `pkt_num_len` covers that range only once
  (`PacketNumbers.SentNumberRecovered`, `PacketNumbers.HalfWindowIsNotGuaranteed`).
- The duplicate window truncates a jump to 32 bits and can then report a number that never
  arrived (`PacketWindow.InsertExactIff`, `PacketWindow.LongJumpIsNotExact`).
- A range set should hold separated, non-empty ranges.  Acknowledging an empty STREAM frame
  (quiche/src/stream/send_buf.rs:252) inserts an empty range, which is kept if and only if it joins
  no stored one; from then on the two forms can differ (`Ranges.EmptyInsertion`,
  `Ranges.RemovalsAgreeIff`, `Ranges.EmptyRangeIsKept`).
- `set_active_path` promises one active path and does not look at its target
  (`PathTable.ActivationExactIff`, `PathTable.TwoActivePaths`).
- `ensure_window_lower_bound` can lift the window above the largest one; tuning then shrinks it and
  a later MAX_DATA can carry a smaller limit (`FlowControl.RenewGrowsIff`, `FlowControl.LimitCanShrink`).

The min/max tracker does not promise the exact extreme (quiche/src/minmax.rs:37-40 says "almost
always"); `Minmax.ExactIff` says when it gives it, and `Minmax.ForgetsASample` when not.

## Model
| member | source | states |
|---|---|---|
| Ranges.Canonical | quiche/src/ranges.rs:123-134 | two sorted lists of separated ranges that cover the same values are equal |
| Ranges.InsertSeparated | quiche/src/ranges.rs:183-249 | insertion of any range keeps the ranges sorted and strictly separated, also among empty ones |
| Ranges.InsertWellFormed | quiche/src/ranges.rs:183-249 | moreover no empty range is stored if none was and none is inserted apart from a stored one |
| Ranges.InsertElements | quiche/src/ranges.rs:270-310 | insertion keeps exactly the ranges that do not touch the new one, and puts in the hull of the others |
| Ranges.InsertCovers | quiche/src/ranges.rs:183-249 | insertion covers the old values and the new range, and nothing else |
| Ranges.InsertLength | quiche/src/ranges.rs:183-249 | a range is added exactly when the new one touches no stored one |
| Ranges.EmptyInsertion | quiche/src/ranges.rs:183-249 | an empty range leaves the list alone if and only if it joins a stored range; otherwise it is kept, covers nothing, and the list stops being canonical |
| Ranges.EmptyRangeIsKept | quiche/src/ranges.rs:183-249 | the empty set takes the empty range at zero; a vector drops the empty range 5..5 on removal up to zero and a map keeps it |
| Ranges.InsertCappedMeaning | quiche/src/ranges.rs:270-310 | with a capacity, the result is old plus new, less exactly the lowest range when the set was full and nothing merged; never more ranges than the capacity |
| Ranges.RemoveUntilMeaning | quiche/src/ranges.rs:168-175 | exactly the stored values above the bound are left, in separated ranges |
| Ranges.RemovedCovers | quiche/src/ranges.rs:251-327 | also with empty ranges stored, both forms leave exactly the covered values above the bound |
| Ranges.RemovalsAgreeIff | quiche/src/ranges.rs:251-327 | the two forms leave the same ranges if and only if the first range that ends above the bound is not empty |
| Ranges.InsertAllMeaning | quiche/src/ranges.rs:113-120 | a run of insertions covers the start and all items |
| Ranges.OrderIndependence | quiche/src/ranges.rs:113-120 | runs whose items cover the same values, in any order and splitting, end with the same ranges |
| Ranges.CappedOrderIndependence | quiche/src/ranges.rs:270-310 | the same for the bounded set when neither run evicts, even under different capacities |
| Ranges.PushItemsIsInsert | quiche/src/ranges.rs:177-179 | pushing the values of a range one by one equals inserting the range |
| Ranges.InsertBelow | quiche/src/frame.rs:1417-1432 | the descending ranges of an ACK frame go in front, one by one, without merging |
| Ranges.EntriesMeaning | quiche/src/ranges.rs:123-134 | iterating the map gives separated ranges that cover exactly its values |
| Ranges.ToTreeRoundTrip | quiche/src/ranges.rs:85-105 | turning a list into a map and iterating it gives the list back |
| RangeSets.InlineInsert | quiche/src/ranges.rs:183-249 | the vector loop gives the specified insertion, and panics exactly when it evicts from an empty vector or evicts for a range in front |
| RangeSets.InlineRemoveUntil | quiche/src/ranges.rs:251-265 | the vector loop gives the specified removal of the vector form |
| RangeSets.PrevTo | quiche/src/ranges.rs:329-334 | finds the entry with the greatest key not above the bound |
| RangeSets.NextTo | quiche/src/ranges.rs:336-341 | finds the entry with the least key at or above the bound |
| RangeSets.TreeInsert | quiche/src/ranges.rs:270-310 | for every range, empty or not, the map loop gives the same specified insertion as the vector |
| RangeSets.TreeIter | quiche/src/ranges.rs:123-134 | the map is iterated in increasing order |
| RangeSets.TreeRemoveUntil | quiche/src/ranges.rs:312-327 | the map loop gives the specified removal of the map form, the insertion inside it evicts nothing, and the addition overflows exactly at the largest number if there is an entry to look at |
| RangeSets.RangeSet.constructor | quiche/src/ranges.rs:67-73 | a new set is empty |
| RangeSets.RangeSet.Fixup | quiche/src/ranges.rs:85-105 | switching the form keeps the ranges; afterwards the vector holds at most three and the map at least three |
| RangeSets.RangeSet.Insert | quiche/src/ranges.rs:113-120 | for every range, empty or not, and in either form the contents become the specified insertion; no panic for capacities of four and more |
| RangeSets.RangeSet.PushItem | quiche/src/ranges.rs:177-179 | the same for a single value, with the overflow at the largest one |
| RangeSets.RangeSet.RemoveUntil | quiche/src/ranges.rs:168-175 | the contents become the specified removal of the current form, the overflow included; without empty ranges that is the same in both |
| RangeSets.RangeSet.Iter | quiche/src/ranges.rs:123-134 | returns the ranges in order |
| RangeSets.RangeSet.First | quiche/src/ranges.rs:149-156 | a lower bound of the stored values, which is stored itself if and only if the first range is not empty |
| RangeSets.RangeSet.Last | quiche/src/ranges.rs:158-166 | an upper bound of the stored values, which is stored itself if and only if the last range is not empty; underflows exactly on the set of the empty range at zero |
| Cid.CutExistsIff | quiche/src/cid.rs:507-512 | a prefix of the queue can hold exactly the numbers to retire if and only if these come first |
| CidReordering.RetiresExactlyIff | quiche/src/cid.rs:498-530 | a frame obeyed without error retires exactly the IDs that it asks for if and only if these come first in the queue |
| CidReordering.ArrivalsKeepDistinct | quiche/src/cid.rs:432-540 | over every run of arrivals the stored numbers stay distinct |
| CidReordering.ReorderedArrival | quiche/src/cid.rs:498-530 | after the arrivals 2, 1, 3 the third frame keeps ID 1 or loses ID 2, whatever the search returns |
| CidReceiver.ArrivalsConserve | quiche/src/cid.rs:432-540 | over every run of accepted arrivals, in any order and with repeats, the stored numbers and the retire set together are those of the start and all that arrived |
| CidReceiver.ArrivalsSplit | quiche/src/cid.rs:432-540 | moreover, while every cut is exact, the two stay disjoint and no stored number lies below the peer's Retire Prior To |
| CidReceiver.CallConserves | quiche/src/cid.rs:432-540 | one accepted call loses no number and adds that of its frame |
| CidReceiver.Answers | quiche/src/cid.rs:432-540 | which answer a frame gets: Ok for a repeated one, InvalidFrame exactly for a conflicting one or one that asks for its own retirement, IdLimit exactly without room; repeated and invalid frames change nothing |
| CidReceiver.LateEffect | quiche/src/cid.rs:470-473 | the number of a late frame goes into the retire set, and nothing else happens |
| CidReceiver.DrainFullIff | quiche/src/cid.rs:507-530 | draining overflows if and only if the retire set is full before the last number goes in |
| CidReceiver.ReturnedPaths | quiche/src/cid.rs:507-530 | the list of an accepted frame holds the numbers and paths of exactly the retired entries that had a path, in their order |
| CidReceiver.ObeyedAnyway | quiche/src/cid.rs:498-540 | what a frame with a higher Retire Prior To leaves behind, accepted or not: how far the drain came, which paths are listed, and whether the new ID is stored |
| CidReceiver.CallKeepsDistinct | quiche/src/cid.rs:432-540 | every call, accepted or not, keeps numbers and IDs distinct |
| CidOutcomes.NewScidSucceedsIff | quiche/src/cid.rs:360-406 | `new_scid` succeeds if and only if there is room or a usable ID may be retired, a token is given, and a known ID comes with its own token |
| CidOutcomes.NewScidEffect | quiche/src/cid.rs:360-406 | a known ID gives its old number; a new one is appended under the next number and announced if asked; Retire Prior To moves past the least usable ID exactly when the limit is reached, even if the call then fails; nothing else changes |
| CidOutcomes.NewScidErrors | quiche/src/cid.rs:360-406 | which error any other call returns |
| CidOutcomes.RetireScidRefuses | quiche/src/cid.rs:551-576 | RETIRE_CONNECTION_ID for a number never issued, for the last ID or for one already gone changes nothing, each with its own answer |
| CidOutcomes.RetireScidRemoves | quiche/src/cid.rs:551-576 | any other number is removed, and only it; the call succeeds if and only if the packet was sent to another ID and a usable ID is left, the least of which is the new Retire Prior To |
| CidOutcomes.RetireDcidAnswers | quiche/src/cid.rs:591-601 | the last ID stays, and a missing one is an error |
| CidOutcomes.RetireDcidMoves | quiche/src/cid.rs:591-601 | any other ID leaves the queue for the retire set, or is lost when that is full |
| CidOutcomes.QueueInsertAnswers | quiche/src/cid.rs:163-176 | an entry with the same number is replaced in place; another is appended exactly when there is room |
| CidOutcomes.LowestMeaning | quiche/src/cid.rs:631-643 | the least number whose retirement was not asked for is found if and only if there is one |
| CidOutcomes.FrameForAnswers | quiche/src/cid.rs:797-808 | a frame can be built exactly for a stored number with a token, and carries that entry |
| CidOutcomes.LinkAnswers | quiche/src/cid.rs:610-617 | linking changes the path of the numbered entry and nothing else |
| CidOutcomes.SourceStarts | quiche/src/cid.rs:249-303 | number zero is the one usable ID at first, and two are allowed |
| CidOutcomes.DestStarts | quiche/src/cid.rs:409-424 | the handshake leaves number zero alone; with an empty ID the peer can neither announce another nor have it retired |
| Cid.QueueRemoveKeeps | quiche/src/cid.rs:192-202 | removal takes out exactly the numbered entry, keeps order and distinctness, and never empties the queue |
| Cid.DrainAll | quiche/src/cid.rs:507-530 | while the retire set has room, draining moves every drained number into it |
| CidSourceRuns.StepKeepsInv | quiche/src/cid.rs:305-576 | every call, successful or not, keeps the source IDs ordered, distinct and bounded and never lowers Retire Prior To; only a new limit can put more IDs over the limit |
| CidSourceRuns.RunKeepsInv | quiche/src/cid.rs:305-576 | the same over every run, from any state that satisfies the invariant |
| CidSourceRuns.SourceRuns | quiche/src/cid.rs:249-576 | over every run from a new endpoint no more IDs are usable than the largest limit ever in force, at least one is left, at most twice that limit less one are kept |
| CidSourceRuns.WithinLimitIff | quiche/src/cid.rs:305-576 | over every run the limit in force is respected at all times if and only if every new limit allowed the IDs usable when it came |
| CidSourceRuns.LoweringTheLimitBreaksIt | quiche/src/cid.rs:305-316 | a limit lowered from three to two leaves three usable IDs |
| CidLink.StartInv | quiche/src/cid.rs:249-303 | both endpoints start in a state that satisfies the protocol's invariant |
| CidLink.StepKeepsInv | quiche/src/cid.rs:360-601 | every protocol step, the loss of the latest announcement included, keeps the invariant and the calls made for the other side return Ok |
| CidLink.TwoEndpoints | quiche/src/cid.rs:360-601 | over every run the issuer's IDs are the disjoint union of the peer's IDs, its retire set, the retirements on the way and the undelivered ones; no call fails; the peer always holds an ID and never too many |
| CidLink.ForcedRetirement | quiche/src/cid.rs:360-406 | a forced retirement succeeds, and the queued frames stay acceptable if and only if the ID to retire had been announced |
| CidLink.RejectedFrame | quiche/src/cid.rs:433-480 | a peer that does not know the ID rejects a frame exactly when it asks for its own retirement |
| CidReachability.RebuiltFrameIff | quiche/src/cid.rs:797-808 | in every reachable state and for every announcement on its way, the frame built in its place is rejected if and only if the retirement of its ID has been asked for |
| CidReachability.RebuiltFrameIsRejected | quiche/src/lib.rs:3862-3865 | a run of accepted steps leads to such a state |
| CidReachability.UnannouncedIsReachable | quiche/src/cid.rs:360-406 | a run of accepted steps leads to a state where the next forced retirement hits an unannounced ID |
| CidObject.InsertEntry | quiche/src/cid.rs:163-176 | replaces an entry with the same number, appends within the capacity, fails otherwise |
| CidObject.RemoveEntry | quiche/src/cid.rs:192-202 | removes the numbered entry and refuses to remove the last one |
| CidObject.PartitionPoint | quiche/src/cid.rs:507-512 | binary search finds the cut whenever the lower numbers come first, and some position otherwise |
| CidObject.ConnectionIdentifiers.constructor | quiche/src/cid.rs:249-303 | the first source ID has number zero and both halves start as specified |
| CidObject.ConnectionIdentifiers.SetSourceConnIdLimit | quiche/src/cid.rs:305-316 | limits of two and more are taken over, clamped so that the capacity fits the machine word, and the queue only grows |
| CidObject.ConnectionIdentifiers.LowestUsableScidSeq | quiche/src/cid.rs:631-643 | the least number whose retirement was not asked for, or InvalidState |
| CidObject.ConnectionIdentifiers.MarkAdvertiseNewScidSeq | quiche/src/cid.rs:720-733 | queues an announcement or takes the first match out |
| CidObject.ConnectionIdentifiers.NewScid | quiche/src/cid.rs:360-406 | every outcome, including Retire Prior To being raised before a later failure |
| CidObject.ConnectionIdentifiers.SetInitialDcid | quiche/src/cid.rs:409-424 | the initial destination ID replaces the queue |
| CidObject.ConnectionIdentifiers.MarkRetireDcidSeq | quiche/src/cid.rs:738-752 | the retire set refuses numbers beyond its capacity |
| CidObject.ConnectionIdentifiers.DrainDcids | quiche/src/cid.rs:507-530 | the drain loop equals the recursive specification, also when the retire set overflows |
| CidObject.ConnectionIdentifiers.NewDcid | quiche/src/cid.rs:432-540 | every outcome of NEW_CONNECTION_ID: duplicates, clashes, late numbers, obeyed retirement, overflow |
| CidObject.ConnectionIdentifiers.RetireScid | quiche/src/cid.rs:551-576 | every outcome of RETIRE_CONNECTION_ID, including the entry being gone when the check against the packet's own ID fails |
| CidObject.ConnectionIdentifiers.RetireDcid | quiche/src/cid.rs:591-601 | the entry moves to the retire set unless it is the last one |
| CidObject.ConnectionIdentifiers.GetNewConnectionIdFrameFor | quiche/src/cid.rs:797-808 | the frame carries the current Retire Prior To |
| CidObject.ConnectionIdentifiers.LinkScidToPathId | quiche/src/cid.rs:610-617 | only the path of the named entry changes |
| Octets.BERoundTrip | octets/src/lib.rs:55-84 | reading back the big-endian bytes of a number gives its low bytes |
| Octets.BEUnique | octets/src/lib.rs:55-84 | a byte string is the encoding of the number it reads as |
| Octets.VarintFits | octets/src/lib.rs:669-680 | `varint_len` is the least allowed length in which the value fits |
| Octets.VarintBytesRoundTrip | octets/src/lib.rs:438-470 | a value that fits an allowed length is read back, with exactly what follows |
| Octets.VarintExactly | octets/src/lib.rs:438-470 | for each allowed length the value is read back if and only if the length is at least `varint_len` |
| Octets.VarintRoundTrip | octets/src/lib.rs:432-436 | the shortest encoding is read back for every value below 2^62 |
| Buffers.Reader.GetU | octets/src/lib.rs:55-84 | reads a big-endian number or reports a short buffer without moving |
| Buffers.Reader.GetVarint | octets/src/lib.rs:174-196 | reads what the specification reads, and moves the cursor past it |
| Buffers.Reader.GetBytes | octets/src/lib.rs:200-213 | reads exactly the asked number of bytes |
| Buffers.Reader.GetBytesWithVarintLength | octets/src/lib.rs:233-236 | reads a length and that many bytes; a failure leaves the cursor where the source does |
| Buffers.Writer.PutBytes | octets/src/lib.rs:561-576 | succeeds exactly when there is room, writes at the cursor and touches no other byte |
| Buffers.Writer.PutU | octets/src/lib.rs:86-109 | the same for big-endian numbers |
| Buffers.Writer.PutVarintWithLen | octets/src/lib.rs:438-470 | the same for variable-length integers of a given length, the tag being added to the first byte in place |
| Buffers.Writer.PutVarint | octets/src/lib.rs:432-436 | the same for the shortest length |
| FrameRoundTrip.BlocksRoundTrip | quiche/src/frame.rs:1417-1432 | the gaps and lengths of separated ranges parse back to the ranges |
| FrameRoundTrip.ParseBlocksMeaning | quiche/src/frame.rs:1417-1432 | accepted blocks give as many ranges as announced, separated and below the first |
| FrameRoundTrip.ParseAckRangesMeaning | quiche/src/frame.rs:1396-1432 | an accepted body gives one range more than blocks, the highest ending at the largest acknowledged number |
| FrameRoundTrip.AckRoundTrip | quiche/src/frame.rs:438-476 | ACK with and without ECN counts parses back for every non-empty set below 2^62 |
| FrameRoundTrip.SourceSymbolAckRoundTrip | quiche/src/frame.rs:669-692 | SourceSymbolACK parses back for every non-empty set below 2^62 |
| FrameRoundTrip.FrameRoundTrips | quiche/src/frame.rs:212-696 | every encodable frame is self-delimiting: with anything after it, parsing returns the frame and the rest, or rejects it exactly when the packet type may not carry it |
| FrameRoundTrip.AcceptedAck | quiche/src/frame.rs:1396-1450 | every accepted ACK body has exactly block count plus one separated ranges |
| FrameRoundTrip.AcceptedSourceSymbolAck | quiche/src/frame.rs:1452-1487 | every accepted SourceSymbolACK body has exactly block count plus one separated ranges |
| FrameRoundTrip.WireLenExact | quiche/src/frame.rs:698-949 | `wire_len` is the length of the encoding, including the looped forms |
| FrameRoundTrip.ParseShrinks | quiche/src/frame.rs:212-418 | every accepted frame consumes input, so payload parsing ends |
| FrameRoundTrip.PayloadRoundTrips | quiche/src/frame.rs:212-696 | concatenated frames parse back to the same list, adjacent PADDING being joined |
| FrameAcceptance.ParseInsists | quiche/src/frame.rs:212-418 | what the parser insists on holds of every parsed frame |
| FrameAcceptance.RoundTripIff | quiche/src/frame.rs:212-696 | a frame that can be written is read back, with exactly what follows it, if and only if it is acceptable and the packet type may carry it |
| FrameAcceptance.LongestPlusOne | quiche/src/frame.rs:1529-1541 | a DATAGRAM of 16384 bytes is read back as an empty one |
| FrameWire.VarintOnWire | octets/src/lib.rs:438-470 | a variable-length integer is its big-endian value with the length in the two highest bits: 1, 2, 4 or 8 bytes |
| FrameWire.VarintParsed | octets/src/lib.rs:174-196 | the two highest bits give the length, the others the value; anything shorter is a short buffer |
| FrameWire.EncodedOnWire | quiche/src/frame.rs:420-696 | the bytes of every frame, written out: type code, fields in their order, and the gap and length of every ACK block from the ranges next to each other |
| FrameWire.BlocksStand | quiche/src/frame.rs:455-467 | the blocks of an ACK frame stand from the highest to the lowest, each as its gap and its length less one |
| FrameWire.StreamParsed | quiche/src/frame.rs:1543-1570 | for each of the eight STREAM types: an offset exactly with bit 2, a length exactly with bit 1, otherwise all that follows; refused exactly from 2^62 on |
| FrameWire.DatagramParsed | quiche/src/frame.rs:1572-1586 | DATAGRAM 0x30 takes all that follows and 0x31 the announced length |
| FrameWire.AllowedByCode | quiche/src/frame.rs:385-413 | which packet types carry which frames, by a table of type codes |
| FrameWire.Refused | quiche/src/frame.rs:212-418 | an empty token, a connection ID of no or of more than 20 bytes, and every type without a frame are refused |
| FrameCodec.PutFields | quiche/src/frame.rs:420-696 | writes succeed exactly when all bytes fit and change only those bytes |
| FrameCodec.AckBlocks | quiche/src/frame.rs:455-467 | the descending encoder loop gives the gaps and lengths of the specification without underflow |
| FrameCodec.AckBlocksLen | quiche/src/frame.rs:718-735 | the loop in `wire_len` gives the length of the encoded blocks |
| FrameCodec.WireLength | quiche/src/frame.rs:698-949 | `wire_len` with its loops gives the exact length of the encoding |
| FrameCodec.ToBytes | quiche/src/frame.rs:420-696 | for every frame that can be written, also with data too long for its length field: succeeds exactly when `wire_len` bytes are left, returns that number, writes the encoding and nothing else |
| FrameCodec.ParseRanges | quiche/src/frame.rs:1408-1432 | the range set object ends up with the specified ranges, or the specified error is returned |
| FrameCodec.ParseAllBlocks | quiche/src/frame.rs:1414-1431 | the loop over the lower blocks collects exactly the specified ranges in the set, or fails as specified |
| FrameCodec.ParseAckFrame | quiche/src/frame.rs:1396-1450 | equals the specification and leaves the cursor behind the frame |
| FrameCodec.ParseSourceSymbolAckFrame | quiche/src/frame.rs:1452-1487 | equals the specification and leaves the cursor behind the frame |
| FrameCodec.ParseStreamFrame | quiche/src/frame.rs:1543-1570 | equals the specification, including the limit on offset plus length |
| FrameCodec.ParseDatagramFrame | quiche/src/frame.rs:1572-1586 | equals the specification, with and without a length |
| FrameCodec.ParsePadding | quiche/src/frame.rs:219-230 | the loop counts all zero bytes that follow |
| FrameCodec.FromBytes | quiche/src/frame.rs:212-418 | the parser on the cursor equals the parser on byte strings, errors included |
| PacketNumbers.PktNumLenIsLeast | quiche/src/packet.rs:558-564 | k bytes can count the unacknowledged packets if and only if k is at least the chosen length |
| PacketNumbers.DecodeIsCongruent | quiche/src/packet.rs:623-641 | the decoded number ends in the bytes that were sent |
| PacketNumbers.DecodeInverts | quiche/src/packet.rs:623-641 | decoding restores a truncated number if and only if it lies in the half-open half window around the expected one, or at either end of the number space |
| PacketNumbers.SentNumberRecovered | quiche/src/packet.rs:558-564 | with the chosen length, a number newer than all received is recovered if and only if it lies in the first window or within half a window of the expected number; an older one if and only if it is less than half a window behind or at the top of the number space |
| PacketNumbers.HalfWindowIsNotGuaranteed | quiche/src/packet.rs:558-564 | packet 1200 after an acknowledged 1000 is decoded as 944 |
| PacketWindow.InsertKeeps | quiche/src/packet.rs:940-979 | insertion contains the new number and keeps everything contained, for any jump |
| PacketWindow.KeptForever | quiche/src/packet.rs:940-979 | an inserted number is contained after every further run |
| PacketWindow.AcceptedOnce | quiche/src/packet.rs:940-979 | a receiver that checks before it inserts accepts no number twice |
| PacketWindow.InsertExactIff | quiche/src/packet.rs:941-957 | one insertion keeps the window exact if and only if the truncated shift leaves no stray bit; jumps below 2^32 never do |
| PacketWindow.RunExact | quiche/src/packet.rs:940-979 | runs of short jumps keep the window exact |
| PacketWindow.WindowIsHistory | quiche/src/packet.rs:940-979 | after such a run from the empty window a number is contained if and only if it was inserted or lies below the window, whose end follows the largest number |
| PacketWindow.LongJumpIsNotExact | quiche/src/packet.rs:941-957 | after 0 and a jump to 2^32 + 127 the number 2^32 looks received |
| PacketWindow.LastOneHundredTwentyEight | quiche/src/packet.rs:940-979 | the window spans the 128 numbers up to the largest one |
| PacketWindow.PktNumWindow.Insert | quiche/src/packet.rs:941-957 | the object does what the value does |
| PacketWindow.PktNumWindow.Contains | quiche/src/packet.rs:959-972 | the object tells what the value tells |
| PacketHeader.HeaderRoundTrips | quiche/src/packet.rs:346-515 | a header parses back whatever follows it and whatever the protected bits of its first byte are |
| PacketHeader.NegotiationRoundTrips | quiche/src/packet.rs:726-743 | a version negotiation packet parses back with its IDs and versions |
| HeaderWire.LongFirstByte | quiche/src/packet.rs:442-515 | the high half of the first byte is 12, 13, 14, 15 exactly for Initial, 0-RTT, Handshake and Retry; the low bits hold the packet number length |
| HeaderWire.ShortOnWire | quiche/src/packet.rs:442-515 | a short header starts with the bits 01, has the key phase in bit 2, and is followed by the ID alone |
| HeaderWire.LongOnWire | quiche/src/packet.rs:442-515 | where version, both IDs with their lengths, and the token stand in a long header |
| HeaderWire.LongTypeParsed | quiche/src/packet.rs:346-440 | the type of an accepted long header: version negotiation exactly for version zero, otherwise by bits 4 and 5 |
| HeaderWire.ShortParsed | quiche/src/packet.rs:346-366 | a short header is accepted exactly when the ID fits |
| HeaderWire.CidParsed | quiche/src/packet.rs:383-394 | an ID is accepted exactly when its bytes are there and, in version 1, it has at most 20 |
| HeaderWire.LongCidsParsed | quiche/src/packet.rs:383-394 | which bytes of an accepted long header are the two IDs |
| HeaderWire.ExtraParsed | quiche/src/packet.rs:400-427 | what follows the IDs: a token with its length in Initial, all but the last 16 bytes in Retry, versions in version negotiation, nothing otherwise |
| HeaderWire.VersionsParsed | quiche/src/packet.rs:415-424 | the versions are the four-byte groups to the end of the packet |
| HeaderWire.TypesAgree | quiche/src/packet.rs:346-515 | every type is read back as it was written |
| HeaderWire.ParseableIff | quiche/src/packet.rs:383-394 | which written headers can be read back: any version but zero, and IDs of at most 20 bytes in version 1 |
| PacketHeader.ToBytes | quiche/src/packet.rs:442-515 | writes exactly the header bytes, or reports a short buffer |
| PacketHeader.GetVersions | quiche/src/packet.rs:415-424 | the loop reads every version up to the end of the packet |
| PacketHeader.FromBytes | quiche/src/packet.rs:346-440 | the parser on the cursor equals the parser on byte strings, errors included |
| HeaderProtection.XorInverts | quiche/src/packet.rs:566-621 | masking a byte twice gives the byte back |
| HeaderProtection.XorKeepsHighBits | quiche/src/packet.rs:663-687 | a mask of four or five bits leaves the form and type bits alone |
| HeaderProtection.MaskFirstInverts | quiche/src/packet.rs:566-621 | masking the first byte is undone and keeps the header form, so that both sides use the same mask width |
| HeaderProtection.SameSample | quiche/src/packet.rs:663-687 | sender and receiver sample the same bytes, whatever the packet number length |
| ProtectionWire.XorBit | quiche/src/packet.rs:566-621 | exclusive or differs from each operand exactly where the other has a one |
| ProtectionWire.MaskedBits | quiche/src/packet.rs:663-687 | the mask flips exactly the low four bits of the first byte of a long header, and the low five of a short one |
| ProtectionWire.ProtectedBytesOnWire | quiche/src/packet.rs:663-687 | byte by byte: the first is masked by the first mask byte, those of the packet number by the next ones, all others stay |
| ProtectionWire.SampleOnWire | quiche/src/packet.rs:663-687 | the sample is the sixteen bytes that start four bytes after the start of the packet number |
| ProtectionWire.LengthOnWire | quiche/src/lib.rs:4924-4932 | the length field covers the packet number and the payload, in two bytes |
| HeaderProtection.ProtectionRoundTrips | quiche/src/packet.rs:566-621 | with the same mask, protection is removed completely and the length and number are read back |
| HeaderProtection.PipelineRecovers | quiche/src/packet.rs:346-724 | for every mask function the receiver recovers type, version, IDs, token, key phase, packet number length and truncated number, and the full number if and only if it is decodable |
| HeaderProtection.EncodePktNum | quiche/src/packet.rs:708-724 | writes the low bytes of the number |
| HeaderProtection.EncryptHdr | quiche/src/packet.rs:663-687 | the buffer becomes the protected packet and no other byte changes |
| HeaderProtection.DecryptHdr | quiche/src/packet.rs:566-621 | the buffer, the header fields and the cursor become those of the specification, or the buffer is too short |
| Paths.RunKeepsInv | quiche/src/path.rs:348-474 | over every run with monotone time the invariant ties the path to its history |
| Paths.PathRuns | quiche/src/path.rs:207-474 | a failed path has nothing in flight; a path that did not start validated is validated only after a full-sized challenge was echoed; the loss counter is the counted losses since the last response |
| Paths.FailureAndRecovery | quiche/src/path.rs:411-474 | a path fails only at a timeout, after three counted losses or at a server that may not send; it leaves the failed state only through a new challenge |
| PathHistory.InFlightIs | quiche/src/path.rs:348-474 | over every run the challenges in flight are those sent and neither answered nor followed by a timeout, in the order of sending |
| PathHistory.TallyIs | quiche/src/path.rs:421-474 | over every run the loss counter is the tally of the call sequence: losses since the last response, each sent at least one round trip after the one counted before |
| PathHistory.FailsIff | quiche/src/path.rs:421-474 | over every run a timeout with a pending challenge fails the path if and only if three losses have counted since the last response or it is a server that may send fewer than 25 bytes; otherwise the state stays and a challenge is requested |
| PathHistory.TimeoutEffect | quiche/src/path.rs:421-474 | every field after a timeout that loses a challenge |
| PathHistory.LargestEchoIs | quiche/src/path.rs:377-409 | over every run the recorded size is that of the largest challenge echoed, each echo measured by the newest pending challenge with its data |
| PathHistory.ValidatedIff | quiche/src/path.rs:377-409 | over every run a response validates a path, and says so, if and only if it was not validated before and a challenge of 1200 bytes or more has been echoed |
| PathHistory.FreshPaths | quiche/src/path.rs:207-250 | initial paths are usable at once, others neither usable nor validated |
| PathHistory.ChallengeEffect | quiche/src/path.rs:348-360 | every field after a challenge was sent |
| PathHistory.ReceivedRuns | quiche/src/path.rs:362-370 | over every run no more received challenges wait than allowed, and one that waits shows that the peer has verified this address |
| PathHistory.ReceivedStep | quiche/src/path.rs:362-370 | a received challenge is queued exactly when there is room, and leaves in order |
| PathTable.InsertKeepsInv | quiche/src/path.rs:674-719 | insertion keeps the bound and the index, and eviction never removes the active path |
| PathTable.StepKeepsInv | quiche/src/path.rs:674-824 | every table operation keeps the invariant and queues only justified events |
| PathTable.TableRuns | quiche/src/path.rs:548-824 | over every run the address index is the exact inverse of the table, its size is bounded, at most one path is active, and PeerMigrated comes only from servers and names a validated path |
| PathTable.NotifyMeaning | quiche/src/path.rs:732-746 | exactly the failed paths not announced yet are announced, in order, and only their flags change |
| PathEvents.StartExact | quiche/src/path.rs:548-579 | a new table holds the initial path alone, active and indexed, and has no events |
| PathEvents.SoughtPaths | quiche/src/path.rs:266-289 | which paths count as active and as unused, by their fields |
| PathEvents.IgnoredResponse | quiche/src/path.rs:758-785 | without an active path a response is an error, and without a matching challenge it changes nothing |
| PathEvents.ResponseExact | quiche/src/path.rs:758-785 | a response goes to the matching path with the lowest identifier; ValidatedPath is queued if and only if that path becomes validated, then PeerMigrated if and only if it is active and was waiting to migrate, and nothing else |
| PathEvents.ActivationExact | quiche/src/path.rs:797-824 | PeerMigrated is queued if and only if the table is a server's and the target is validated; otherwise a server's target waits to migrate and is probed; only the old and the new path change |
| PathEvents.InsertionWithRoom | quiche/src/path.rs:704-719 | New is queued exactly when asked, and nothing is closed |
| PathEvents.InsertionWithEviction | quiche/src/path.rs:674-719 | a full table closes its lowest unused path, says so, and only then announces the new one |
| PathEvents.InsertionRefused | quiche/src/path.rs:674-692 | without an unused path a full table stays as it is |
| PathEvents.FailuresExact | quiche/src/path.rs:732-746 | the events are one FailedValidation for each failed path not announced yet, in increasing order, and nothing else |
| PathEvents.MigrationAnnouncedOnce | quiche/src/path.rs:758-824 | a server path activated before its validation has exactly one PeerMigrated from then on once it is validated while still active, whatever happened in between except another activation |
| PathTable.ActivationExactIff | quiche/src/path.rs:797-824 | from a sound state two paths can later be active at once if and only if the table may hold two paths and the activated one had failed or had no destination ID |
| PathTable.TwoActivePaths | quiche/src/path.rs:797-824 | with any other path in the table, a path flagged in vain leads to two active paths |
| PathObjects.RetainUnanswered | quiche/src/path.rs:381-389 | the loop drops exactly the answered challenges and returns the size of the last |
| PathObjects.RetainNotLost | quiche/src/path.rs:431-441 | the loop drops exactly the lost challenges and returns the time of the first |
| PathObjects.Path.constructor | quiche/src/path.rs:207-250 | an initial path starts validated with destination ID zero, others unknown without one |
| PathObjects.Path.AddChallengeSent | quiche/src/path.rs:348-360 | the state is promoted and the challenge queued |
| PathObjects.Path.OnChallengeReceived | quiche/src/path.rs:362-370 | challenges beyond the queue's limit are dropped |
| PathObjects.Path.OnResponseReceived | quiche/src/path.rs:377-409 | every field, and whether the path became validated, as specified |
| PathObjects.Path.OnLossDetectionTimeout | quiche/src/path.rs:421-474 | every field as specified: losses counted one round trip apart, failure or a new request; the counts of loss recovery are passed on |
| PathObjects.PathMap.constructor | quiche/src/path.rs:548-579 | the first path is active and indexed |
| PathObjects.PathMap.Find | quiche/src/path.rs:604-606 | the search returns the lowest identifier that satisfies the condition |
| PathObjects.PathMap.MakeRoomForNewPath | quiche/src/path.rs:674-692 | a full table loses its first unused path and its index entry, or nothing changes |
| PathObjects.PathMap.InsertPath | quiche/src/path.rs:704-719 | the path goes to a free entry of the slab as specified |
| PathObjects.PathMap.NotifyFailedValidations | quiche/src/path.rs:732-746 | the loop equals the specification |
| PathObjects.PathMap.OnResponseReceived | quiche/src/path.rs:758-785 | the answered path, the events and the result as specified |
| PathObjects.PathMap.SetActivePath | quiche/src/path.rs:797-824 | the old path steps down even when the new one does not exist; the new one, the events and the result as specified |
| Minmax.Tracker.ResetTo | quiche/src/minmax.rs:89-97 | the loop overwrites all three estimates |
| Minmax.Tracker.RunningMin | quiche/src/minmax.rs:100-118 | the array becomes the specified estimates and the first is returned |
| Minmax.Tracker.RunningMax | quiche/src/minmax.rs:121-139 | the same for the maximum |
| Minmax.Tracker.SubwinUpdate | quiche/src/minmax.rs:142-177 | aged estimates are shifted out in place as specified |
| Minmax.RunKeepsTracked | quiche/src/minmax.rs:89-177 | over every run each estimate is a sample that strictly beats everything measured after it, in the order of their measurement |
| Minmax.TrackerRuns | quiche/src/minmax.rs:89-177 | moreover the three are ordered in time and value, and the returned one lies in the window |
| Minmax.FreshRunsForgetNothing | quiche/src/minmax.rs:89-177 | while every update finds the best estimate in the window or beats it, the returned value is the extreme of everything since the reset |
| Minmax.BestAfter | quiche/src/minmax.rs:100-177 | which sample an update returns, by guards on the state before it |
| Minmax.Refreshes | quiche/src/minmax.rs:100-177 | all three estimates while the best one stays: past a quarter of the window the second is later than the best, and a third as old as the second is replaced past half of it |
| Minmax.MovesAllUp | quiche/src/minmax.rs:100-177 | all three estimates when the best one has left the window |
| Minmax.UpdateExactIff | quiche/src/minmax.rs:142-177 | from an exact state, an update returns the extreme of the window if and only if the best estimate has not aged out, or the estimate that moves up is as extreme as everything still in the window |
| Minmax.ExactIff | quiche/src/minmax.rs:89-177 | over every run with one window the tracker is exact at all times if and only if no update forgets a sample in this way |
| Minmax.ForgetsASample | quiche/src/minmax.rs:142-177 | a sample in the window can be forgotten |
| FlowControl.FlowController.ShouldUpdateMaxData | quiche/src/flowcontrol.rs:89-93 | true exactly when less than half of the window is left |
| FlowControl.FlowController.UpdateMaxData | quiche/src/flowcontrol.rs:101-104 | commits consumed plus window and the time |
| FlowControl.FlowController.AutotuneWindow | quiche/src/flowcontrol.rs:109-118 | doubles the window up to the largest one when the last update is recent |
| FlowControl.FlowController.EnsureWindowLowerBound | quiche/src/flowcontrol.rs:122-126 | the window becomes at least the bound |
| FlowControl.LowerBoundIff | quiche/src/flowcontrol.rs:122-126 | raising the lower bound keeps the window within the largest one if and only if the bound is |
| FlowControl.ShouldUpdateIff | quiche/src/flowcontrol.rs:89-93 | an update is due exactly when less than half of the window is left |
| FlowControl.LowerBoundExact | quiche/src/flowcontrol.rs:122-126 | the window becomes the larger of itself and the bound |
| FlowControl.TuningExact | quiche/src/flowcontrol.rs:109-118 | tuning fires exactly within two round trips of the last update, and then doubles the window, or takes the largest one if that is less |
| FlowControl.TunesAfterCommit | quiche/src/flowcontrol.rs:101-118 | a commit starts that time |
| FlowControl.StepKeepsInv | quiche/src/flowcontrol.rs:81-126 | every guarded step keeps the invariant; a commit strictly raises the limit and leaves credit equal to the window |
| FlowControl.FlowRuns | quiche/src/flowcontrol.rs:81-126 | over every run consumption stays within the limit, every committed limit exceeds all earlier ones, and the window only grows, up to the largest one |
| FlowControl.TuningShrinksIff | quiche/src/flowcontrol.rs:109-118 | tuning shrinks the window exactly when it fires on a window above the largest one |
| FlowControl.RenewGrowsIff | quiche/src/lib.rs:4344-4364 | the limit announced by MAX_DATA grows if and only if tuning does not fire or the largest window reaches past the old limit |
| FlowControl.LimitCanShrink | quiche/src/lib.rs:4332-4364 | a limit of 300 is followed by one of 250 |

## Left out
- Payload encryption, key derivation and the Retry integrity tag: foreign code.  Header protection uses an arbitrary function from the sample to five bytes; Version Negotiation and Retry packets are modelled as headers only.
- FEC schedulers, loss recovery, streams and the connection object: round-trip times, send budgets and consumption are inputs.
- CryptoHeader, StreamHeader and DatagramHeader, which stand for frames with data written elsewhere, and the MTU probe flag of PING: they add no new format.
- FrameCodec.FromBytes: the FEC symbol frames 0x32 and 0x33, whose layout belongs to another library; the parser of the model answers InvalidFrame for them.
- FrameCodec.ToBytes: integers that no varint can hold, on which the source panics, and what has been written when a short buffer is noticed.
- RangeSets.RangeSet.Insert: ranges whose start lies above their end, which no caller passes.  Panics, arithmetic overflow included, are modelled by a result that says so and a set that does not change.
- RangeSets.TreeInsert: the ordered map is a finite map searched by key; the node structure of the B-tree is not modelled.
- CidObject.PartitionPoint: on a queue that is not partitioned the source's search returns a position that the library does not specify; the model promises any position.
- CidLink.TwoEndpoints: announcements arrive in order.  A forced retirement is asked for only with room in the queue and for an announced ID, and an announcement is lost only if it is the latest, nothing else is queued, and its ID is not to be retired; CidLink.ForcedRetirement, CidReachability.RebuiltFrameIff and CidReordering.RetiresExactlyIff say what happens otherwise.
- HeaderProtection.PipelineRecovers: long headers carry a two-byte length, and the payload is long enough to be sampled, as the sender ensures by padding.
- PathTable.TableRuns: new paths have new addresses and are inactive, targets of activation work and have a destination ID, and an active path keeps its destination ID; PathTable.ActivationExactIff says what happens otherwise.
- PathObjects.Path: congestion control, MTU discovery, byte and packet counters, and the source ID of a path are not modelled; taking events out of the queue neither.
- Minmax.Tracker.RunningMin: values are integers; the thresholds of a quarter and a half of the window are parameters because the source rounds them.
- FlowControl.FlowRuns: 64-bit overflow of the window and of the limit is not modelled.
- Debug output, qlog, the C interface, the HTTP/3 layer, datagram queues, MTU probing and the applications: they hold no protocol state of these parts.
