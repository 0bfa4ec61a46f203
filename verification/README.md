# Verified models of the 4XM decoder, ffplay's queues, ffmpeg's output path and the H.264 framing pipeline

This Dafny project models four parts of the repository that keep real state, and proves what they are
for. `dafny verify dfyconfig.toml` checks all of it.

**The 4XM decoder** (`libavcodec/4xm.c`). `HuffmanForest` holds the merge of the two lightest nodes as a
function on values and the code words it defines; `HuffmanDepth`, `HuffmanCodes`, `HuffmanOptimal` and
`HuffmanBits` prove the depth bound, prefix-freeness with Kraft's sum, optimality, and which side of a
merge gets which bit. `HuffmanTables`, `HuffmanVlc`
and `HuffmanRanges` are `read_huffman_tables` itself: the merge loop and the walk over arrays, the check
that `init_vlc` makes, and the frequency ranges, proved against those functions.
`BlockTypes`, `PBlockSpec` and `PBlockDecoder` are the recursive P-block decoder: the class
`FourXContext` advances three readers and paints pixels, and is proved against a parser that gives a
tree of leaves; `PBlockFormat` says how blocks are written, and that the parser reads exactly that.
`FragmentReassembly` is the `cfrm` branch with its 100 slots.

**ffplay's queues** (`fftools/ffplay.c`). `PacketQueue` is the linked list with serial numbers, as a heap
structure refining a value; `DecoderSerials` and `DecoderDelivery` the decoder thread against seeks, aborts and restarts;
`FrameRing` the frame ring with its kept last frame, shared by a reader and a writer that change their
index outside the lock and the size inside it; `SampleRing` the wrapping copy for the sample display.

**ffmpeg's output path** (`fftools/ffmpeg.c`). `FilterChain` is the one-index loop through the bitstream
filters, `MuxWriter` the packet limit, the queue in front of the header and the timestamp repair;
`MuxRuns` tells from a run alone when it exits and what the muxer gets.

**The framing pipeline** (`application/src`). `StreamSplit` says how a byte stream is split at access unit
delimiters (ITU-T H.264, Annex B, section B.1 and section 7.3.2.4), `FileReceiver` is the sliding
window over the file, and `StreamPipeline` the two threads and their pool of buffers.

Code that changes things in place is a class or a method over arrays, with `ensures` clauses that equate
the new state with a function of the old one; what the source promises is then proved about that function.
Protocols between threads are state machines whose steps are single accesses to shared state, or single
sections under a lock.

## Results that differ from what the code suggests

- The merge loop of `read_huffman_tables` has 255 slots for 257 symbols. When all symbols occur it ends
  with two trees, and the code is not prefix-free (`HuffmanCodes.PrefixFreeIff`,
  `HuffmanCodes.AllSymbolsOccur`). What happens then is decided by `init_vlc`, which refuses codes that
  clash: such a table is refused (`HuffmanVlc.AllOnceRefused`), unless one of the two trees is a single
  symbol. Its code is empty, `init_vlc` leaves it out, and the table is accepted with a symbol that can
  never be decoded (`HuffmanVlc.LoneTableAccepted`). `HuffmanVlc.InitVlcIff` is the exact condition. The
  depth bound and the lower bound on the cost hold without it.
- The "vlc length overflow" branch is dead: no length exceeds 22.
- `size2index` is an array of unsigned bytes, so its entry -1 reads as 255 and the assertion on it says
  nothing. What keeps the recursion away from it are the code tables alone.
- The fragment with id 0 also matches every free slot, and its bytes can be lost or split between slots
  (`FragmentReassembly.ZeroLosesBytes`); all other ids are reliable.
- A frame ring of size one that keeps its last frame blocks both threads for good
  (`FrameRing.OnePlaceGetsStuck`).
- A packet without dts resets the record of the last dts: two packets are sure to leave in order exactly
  when every packet between them has a dts (`MuxWriter.OrderIffNoGap`, with `MuxWriter.MissingDtsResets`
  as the smallest case). The formats and streams for which order is guaranteed at all are given by
  `MuxWriter.OrderIffRepairs`.
- The file receiver drops whatever follows the last full read: a run passes without a frame exactly on
  files below one MiB (`FileReceiver.PassesWithoutFramesIff`), and `FileReceiver.EmittedIff` says which
  segments are lost otherwise.
- The exits of the receiver do not wait for the checker. Every run ends with all frames checked exactly
  when the pool has a single buffer or there is no frame to check (`StreamPipeline.AllCheckedAtExitIff`);
  `StreamPipeline.PassesUnchecked` is a file that passes with its only frame unchecked.

## Model

| member | source | states |
|---|---|---|
| HuffmanForest.CanMergeIff | middlewares/FFmpeg/libavcodec/4xm.c:679-680 | the loop breaks off exactly when fewer than two nodes are live |
| HuffmanForest.MergeKeepsTotal | middlewares/FFmpeg/libavcodec/4xm.c:682-687 | a merge conserves the total weight |
| HuffmanForest.MergeDropsOne | middlewares/FFmpeg/libavcodec/4xm.c:682-687 | a merge leaves one live node fewer |
| HuffmanDepth.MergeKeepsGrown | middlewares/FFmpeg/libavcodec/4xm.c:660-688 | merged minima never decrease, and a node of height h weighs at least Fibonacci(h+2): the invariant of the merge loop |
| HuffmanDepth.CodeWordsAreShort | middlewares/FFmpeg/libavcodec/4xm.c:690-704 | for every frequency table no code is longer than 22 bits; symbols that do not occur have none |
| HuffmanCodes.PrefixFreeIff | middlewares/FFmpeg/libavcodec/4xm.c:660-704 | the code is prefix-free if and only if at most 256 of the 257 symbols occur |
| HuffmanCodes.AllSymbolsOccur | middlewares/FFmpeg/libavcodec/4xm.c:660-660 | the table in which every symbol occurs once gets a code that is not prefix-free |
| HuffmanCodes.KraftEquality | middlewares/FFmpeg/libavcodec/4xm.c:652-704 | the sum of 2^-length over the symbols that occur is exactly 1, or exactly 2 when all 257 occur |
| HuffmanCodes.Complete | middlewares/FFmpeg/libavcodec/4xm.c:660-704 | every long enough bit string starts with some code word, at every stage of the loop |
| HuffmanCodes.CoveredTwice | middlewares/FFmpeg/libavcodec/4xm.c:660-704 | where the merges left do not join all live nodes, every long enough bit string starts with two different code words |
| HuffmanCodes.Decodable | middlewares/FFmpeg/libavcodec/4xm.c:690-711 | two messages with the same encoding are the same message |
| HuffmanOptimal.KraftInequality | middlewares/FFmpeg/libavcodec/4xm.c:690-704 | any prefix code meets Kraft's inequality, whatever its lengths |
| HuffmanOptimal.LowerBound | middlewares/FFmpeg/libavcodec/4xm.c:660-704 | from every stage on, the remaining merges cost no more than any lengths that meet Kraft's inequality |
| HuffmanOptimal.Optimal | middlewares/FFmpeg/libavcodec/4xm.c:660-704 | the sum of frequency times length is minimal among all prefix codes for the same symbols |
| HuffmanTables.TwoSmallest | middlewares/FFmpeg/libavcodec/4xm.c:661-678 | the one-pass search finds the first lightest live node and the first lightest of the others |
| HuffmanTables.MergeLoop | middlewares/FFmpeg/libavcodec/4xm.c:660-688 | the loop in place leaves frequency, flag and up as the merges on values do |
| HuffmanTables.OneRootIff | middlewares/FFmpeg/libavcodec/4xm.c:660-688 | the loop ends with exactly one live root if and only if at most 256 symbols occur |
| HuffmanTables.PathIsCode | middlewares/FFmpeg/libavcodec/4xm.c:693-700 | the parent links of the finished arrays spell the code words that the merges define |
| HuffmanTables.WalkUp | middlewares/FFmpeg/libavcodec/4xm.c:691-703 | bits and len are the value and length of the path, and the overflow message is never reached |
| HuffmanTables.BuildTables | middlewares/FFmpeg/libavcodec/4xm.c:652-704 | the two tables hold the code words of the frequencies given, and nothing overflows |
| HuffmanTables.TablesArePrefixFreeIff | middlewares/FFmpeg/libavcodec/4xm.c:702-708 | the integer pairs, compared by shifts, are prefix-free if and only if at most 256 symbols occur |
| HuffmanBits.LighterGoesOnWithZero | middlewares/FFmpeg/libavcodec/4xm.c:682-687 | after any bits, the nodes whose words go on with 0 weigh together at most as much as those that go on with 1 |
| HuffmanBits.ZeroIsLighter | middlewares/FFmpeg/libavcodec/4xm.c:683-703 | the same for the integer tables and all prefixes: the symbols that go on with 0 occur together at most as often as those that go on with 1 |
| HuffmanBits.LightestAreSiblings | middlewares/FFmpeg/libavcodec/4xm.c:683-703 | the two symbols merged first have codes of one length that differ in the last bit, the lighter one's being 0 |
| HuffmanVlc.InitVlcIff | middlewares/FFmpeg/libavcodec/4xm.c:706-709 | init_vlc accepts the tables if and only if at most 256 symbols occur, or all 257 do and one of them was never merged |
| HuffmanVlc.ClashInFirstTable | middlewares/FFmpeg/libavcodec/bitstream.c:180-200 | tables that are refused have a code of at most 9 bits that starts another one, so two codes claim one entry of the first table |
| HuffmanVlc.LoneIsHeavy | middlewares/FFmpeg/libavcodec/4xm.c:660-688 | with all symbols occurring, one that is never merged has at least a third of the total frequency |
| HuffmanVlc.EvenTablesRefused | middlewares/FFmpeg/libavcodec/4xm.c:706-709 | with all symbols occurring and none having a third of the total, the tables are refused |
| HuffmanVlc.AllOnceRefused | middlewares/FFmpeg/libavcodec/4xm.c:706-709 | the tables for every symbol occurring once are refused |
| HuffmanVlc.HeavyStaysLone | middlewares/FFmpeg/libavcodec/4xm.c:660-688 | a node about as heavy as all others together is never merged |
| HuffmanVlc.LoneTableAccepted | middlewares/FFmpeg/libavcodec/4xm.c:706-709 | tables with all symbols occurring that are accepted: byte 0 occurs 255 times, all else once, and byte 0 has no code |
| HuffmanRanges.ParsedIsFrequencies | middlewares/FFmpeg/libavcodec/4xm.c:632-658 | whatever the bytes, a parsed table is one of byte frequencies with end symbol 1, and the position stays inside the data |
| HuffmanRanges.RoundTrip | middlewares/FFmpeg/libavcodec/4xm.c:632-658 | reading back written ranges gives the table they describe, later ranges winning |
| HuffmanRanges.ParsedIff | middlewares/FFmpeg/libavcodec/4xm.c:632-658 | data parses if and only if it begins with written ranges that, aligned, end inside it |
| HuffmanRanges.ReadFrequencies | middlewares/FFmpeg/libavcodec/4xm.c:632-658 | the loop in place fails exactly when the data is malformed, and otherwise leaves the parsed table |
| HuffmanRanges.ReadHuffmanTables | middlewares/FFmpeg/libavcodec/4xm.c:616-712 | the whole function: NULL exactly on malformed data and on tables that init_vlc refuses, which depends on the parsed frequencies only; else the tables of those frequencies, the lightest symbol's bit being 0 |
| BlockTypes.Size2IndexIs | middlewares/FFmpeg/libavcodec/4xm.c:70-75 | the table index is one of the four exactly for sizes that are not 1x1 |
| BlockTypes.MatchesIff | middlewares/FFmpeg/libavcodec/4xm.c:46-68 | which of the codes a bit string starts with, for all tables and the first five bits |
| BlockTypes.StandardIsUsable | middlewares/FFmpeg/libavcodec/4xm.c:46-68 | each of the eight tables decodes every bit string, to exactly one code, and offers a split only where the half is not 1x1 |
| BlockTypes.NextType | middlewares/FFmpeg/libavcodec/4xm.c:351-359 | the code read is the entry of the block's table whose bits come next, takes that entry's length, and is allowed for the size: never a split that leads to 1x1, code 6 only for two pixels |
| PBlockSpec.InPictureIs | middlewares/FFmpeg/libavcodec/4xm.c:361-419 | the model's range test is the source's comparison of the two end pointers |
| PBlockSpec.InPictureIff | middlewares/FFmpeg/libavcodec/4xm.c:361-422 | the range test accepts exactly the source blocks whose pixels all lie inside the previous frame |
| PBlockSpec.CoLocatedInPicture | middlewares/FFmpeg/libavcodec/4xm.c:414-414 | a co-located source passes the assertion of code 5 |
| PBlockSpec.ParsedIsSound | middlewares/FFmpeg/libavcodec/4xm.c:342-427 | every leaf of a decoded block has a source inside the previous frame, and every split is of a size that can be split |
| PBlockSpec.CopyMoves | middlewares/FFmpeg/libavcodec/4xm.c:278-340 | a copied pixel is the one at its own place moved by the motion, unchanged without dc, and else with dc and the carry of its pair added |
| PBlockFormat.TypeOfIff | middlewares/FFmpeg/libavcodec/4xm.c:357-359 | code c is read if and only if its bits, from the table row of the version, stand at the reader, and then they are what is consumed |
| PBlockFormat.RoundTrip | middlewares/FFmpeg/libavcodec/4xm.c:342-427 | reading back a written block, words low byte first, gives the tree that it means and leaves the three readers behind it |
| PBlockFormat.ReadsBack | middlewares/FFmpeg/libavcodec/4xm.c:342-427 | whatever parses is a written block |
| PBlockFormat.ParsesIff | middlewares/FFmpeg/libavcodec/4xm.c:342-427 | a block parses to a given tree and readers if and only if the streams hold it in writing there |
| PBlockFormat.FrameRoundTrip | middlewares/FFmpeg/libavcodec/4xm.c:482-488 | blocks written row by row parse to the leaves of all blocks, each block at its place |
| PBlockSpec.LeavesPartition | middlewares/FFmpeg/libavcodec/4xm.c:364-391 | each pixel of a block lies in exactly one leaf |
| PBlockSpec.LeafInside | middlewares/FFmpeg/libavcodec/4xm.c:364-391 | each leaf lies inside its block |
| PBlockSpec.FramePartition | middlewares/FFmpeg/libavcodec/4xm.c:482-488 | each pixel of the frame lies in exactly one leaf of one block |
| PBlockDecoder.PairWordIs | middlewares/FFmpeg/libavcodec/4xm.c:287-291 | the packed 32-bit addition, carry from the low pixel to the high one included, as two pixels |
| PBlockDecoder.FourXContext.Mcdc | middlewares/FFmpeg/libavcodec/4xm.c:294-340 | every pixel of the block ends up as the copied or filled one, and no other pixel changes |
| PBlockDecoder.FourXContext.StorePair | middlewares/FFmpeg/libavcodec/4xm.c:378-391 | code 6 paints its two pixels from the word stream and nothing else |
| PBlockDecoder.FourXContext.DecodePBlock | middlewares/FFmpeg/libavcodec/4xm.c:342-427 | the recursion terminates, fails exactly when parsing fails, leaves the readers where the parse does, paints all its leaves and touches nothing outside its block |
| PBlockDecoder.FourXContext.DecodePFrame | middlewares/FFmpeg/libavcodec/4xm.c:482-490 | succeeds exactly when all blocks parse, and then every leaf of every block is painted |
| FragmentReassembly.StepRefines | middlewares/FFmpeg/libavcodec/4xm.c:880-921 | one fragment changes the bytes held for its own id only, as the map from ids to bytes does |
| FragmentReassembly.HeldIsCollected | middlewares/FFmpeg/libavcodec/4xm.c:880-921 | after any run, the bytes held for an id are its fragments since it was last completed |
| FragmentReassembly.InterleavingIsIrrelevant | middlewares/FFmpeg/libavcodec/4xm.c:880-921 | the fragments of other ids make no difference |
| FragmentReassembly.SinceIs | middlewares/FFmpeg/libavcodec/4xm.c:907-921 | the place from which fragments count: behind the last packet that completed a frame of the id |
| FragmentReassembly.CompletedIsConcatenation | middlewares/FFmpeg/libavcodec/4xm.c:867-921 | after any run, a completed frame is the in-order concatenation of exactly the payloads of its id accepted since it was last completed, and its own; complete and rejected are decided by its length and size field |
| FragmentReassembly.RoomIff | middlewares/FFmpeg/libavcodec/4xm.c:880-891 | in a run without id 0, a packet finds a slot if and only if bytes of its id wait or fewer than 100 ids have bytes waiting |
| FragmentReassembly.RunsIff | middlewares/FFmpeg/libavcodec/4xm.c:880-891 | so a whole run never lacks a slot if and only if each of its packets finds room that way |
| FragmentReassembly.ZeroLosesBytes | middlewares/FFmpeg/libavcodec/4xm.c:880-890 | a run after which the bytes collected for id 0 are not those held for it |
| FragmentReassembly.ReliableIff | middlewares/FFmpeg/libavcodec/4xm.c:880-921 | an id is reliable in all runs if and only if it is not 0 |
| FragmentReassembly.CFrames.Add | middlewares/FFmpeg/libavcodec/4xm.c:862-921 | the slots change in place as the step on values says |
| PacketQueue.PutNumbered | middlewares/FFmpeg/fftools/ffplay.c:427-453 | queuing keeps each packet's serial short of the queue's by the number of flush packets behind it |
| PacketQueue.SerialsOrdered | middlewares/FFmpeg/fftools/ffplay.c:427-453 | serials never decrease along the list |
| PacketQueue.CurrentIff | middlewares/FFmpeg/fftools/ffplay.c:427-453 | a packet, the last one included, has the queue's serial exactly when no flush packet follows it |
| PacketQueue.AlwaysNumbered | middlewares/FFmpeg/fftools/ffplay.c:427-579 | after every sequence of queue operations the queue's serial is the number of flush packets queued so far, the packets are numbered by it, and serials are in order |
| PacketQueue.FirstInFirstOut | middlewares/FFmpeg/fftools/ffplay.c:427-579 | since the queue was last emptied, the packets taken out and those still there are the packets put in while it was not stopped, in order and unchanged |
| PacketQueue.PacketQueue.PutPacket | middlewares/FFmpeg/fftools/ffplay.c:427-453 | the linked list, its last pointer and its three totals follow the queue on values; refused exactly when aborted |
| PacketQueue.PacketQueue.GetPacket | middlewares/FFmpeg/fftools/ffplay.c:543-579 | takes the first entry with its serial, or says aborted or empty and changes nothing |
| PacketQueue.PacketQueue.FlushPackets | middlewares/FFmpeg/fftools/ffplay.c:498-514 | empties list and totals, keeping the serial |
| PacketQueue.PacketQueue.StartQueue | middlewares/FFmpeg/fftools/ffplay.c:534-540 | lifts the abort and queues a flush packet behind what is there |
| DecoderSerials.WatchedIsOrderly | middlewares/FFmpeg/fftools/ffplay.c:590-677 | a trace that is in order event by event has its serials in order and a codec flush between any two different ones |
| DecoderSerials.DecStep | middlewares/FFmpeg/fftools/ffplay.c:590-677 | every step of any thread keeps the packets held and pending, each with the serial it was queued under, and what was sent consistent with the decoder's serial |
| DecoderSerials.SerialsNeverMix | middlewares/FFmpeg/fftools/ffplay.c:590-677 | in every run the packets sent have queue serials that never decrease, and different ones have a codec flush between them |
| DecoderDelivery.NothingIsLost | middlewares/FFmpeg/fftools/ffplay.c:590-677 | in every run, the packets queued since the last flush packet have been sent for good, are in the decoder's hands or wait in the queue, once each and in order; after an emptying, a prefix of them |
| DecoderDelivery.WaitsOnlyForPackets | middlewares/FFmpeg/fftools/ffplay.c:590-677 | the decoding thread has a step to take if and only if it does not stand before an empty queue that is not aborted |
| FrameRing.SlotsApart | middlewares/FFmpeg/fftools/ffplay.c:745-785 | the slot being written holds no live frame, and the slot the reader stands at holds no later one |
| FrameRing.NextInv | middlewares/FFmpeg/fftools/ffplay.c:745-800 | every step of either thread keeps index, size and slots consistent |
| FrameRing.Refines | middlewares/FFmpeg/fftools/ffplay.c:730-806 | every step is a push or a take of a bounded FIFO with an optional kept frame, or no step of it |
| FrameRing.PeeksAreFifo | middlewares/FFmpeg/fftools/ffplay.c:730-743 | the three peeks read the first and second waiting frames and the kept one |
| FrameRing.ReachableInv | middlewares/FFmpeg/fftools/ffplay.c:690-806 | the invariant holds in every reachable state |
| FrameRing.WrittenIsHandedOver | middlewares/FFmpeg/fftools/ffplay.c:745-785 | in every run the frames handed over are, in order and unchanged, those last written before each index update |
| FrameRing.OnePlaceGetsStuck | middlewares/FFmpeg/fftools/ffplay.c:745-800 | a run in which a ring of one place that keeps its last frame blocks both sides |
| FrameRing.NeverBothBlockedIff | middlewares/FFmpeg/fftools/ffplay.c:745-800 | reader and writer are never both blocked if and only if there are two places or no frame is kept |
| SampleRing.StoreInTwo | middlewares/FFmpeg/fftools/ffplay.c:2267-2277 | storing a batch in pieces is storing it whole |
| SampleRing.NewestAreKept | middlewares/FFmpeg/fftools/ffplay.c:2262-2278 | of a batch of any length the newest samples stand at their places modulo the ring size |
| SampleRing.VideoState.UpdateSampleDisplay | middlewares/FFmpeg/fftools/ffplay.c:2262-2278 | the chunked copy terminates and leaves array and index as storing one sample at a time does |
| FilterChain.FinishInTwo | middlewares/FFmpeg/fftools/ffmpeg.c:852-887 | feeding composed filters in two parts is feeding them at once, end of stream included |
| FilterChain.TurnSend | middlewares/FFmpeg/fftools/ffmpeg.c:875-880 | handing a packet to the next filter leaves what is still to come unchanged, with one turn less to go |
| FilterChain.TurnEnd | middlewares/FFmpeg/fftools/ffmpeg.c:869-880 | so does handing on the end of the stream |
| FilterChain.OutputStream.BsfSend | middlewares/FFmpeg/libavcodec/bsf.c:186-210 | accepts the end of the stream always, and a packet only on a drained filter whose input has not ended; else an error, and nothing changes |
| FilterChain.OutputStream.Turn | middlewares/FFmpeg/fftools/ffmpeg.c:862-885 | one turn: every send is accepted, what the muxer will have got is conserved, a filter is told of the end only after the one before it, and the end of the loop gets closer |
| FilterChain.OutputStream.OutputPacket | middlewares/FFmpeg/fftools/ffmpeg.c:847-896 | the loop terminates, and the muxer gets what the composed filters give, in order |
| FilterChain.StreamIsComposition | middlewares/FFmpeg/fftools/ffmpeg.c:841-896 | over a whole stream, however many calls bring it, the muxer gets what the composed filters give for all packets and the end |
| FilterChain.ChainConserves | middlewares/FFmpeg/fftools/ffmpeg.c:852-887 | filters that neither make nor lose anything form a chain that does not: the whole stream comes out as much as went in |
| FilterChain.PassThrough | middlewares/FFmpeg/fftools/ffmpeg.c:852-887 | filters that hand on each packet give the muxer the packets as they are |
| MuxWriter.GuessIsMedian | middlewares/FFmpeg/fftools/ffmpeg.c:771-774 | the guess is the median of pts, dts and the last dts plus 1 |
| MuxWriter.RepairIs | middlewares/FFmpeg/fftools/ffmpeg.c:764-799 | exactly which times a packet leaves with: the median where dts was above pts, a dts that would go back raised to the smallest allowed with its pts taken along; the program exits if and only if that is wanted instead |
| MuxWriter.RepairOrders | middlewares/FFmpeg/fftools/ffmpeg.c:764-799 | a repaired packet has dts at or after the last one, pts not before dts, and neither time made or lost |
| MuxWriter.OrderIffRepairs | middlewares/FFmpeg/fftools/ffmpeg.c:764-799 | valid dts values come out in order for all streams of packets if and only if the stream is one the second repair covers |
| MuxWriter.OrderIffNoGap | middlewares/FFmpeg/fftools/ffmpeg.c:776-799 | for a given pattern of missing dts, the packets at two places leave in order whatever their times are if and only if no dts is missing between them |
| MuxWriter.MissingDtsResets | middlewares/FFmpeg/fftools/ffmpeg.c:776-799 | three packets, the middle one without dts, whose dts go back unrepaired |
| MuxWriter.DtsInOrder | middlewares/FFmpeg/fftools/ffmpeg.c:690-799 | in every run, between packets with valid dts the muxer's dts values increase, or do not decrease for non-strict formats |
| MuxWriter.PtsNotBeforeDts | middlewares/FFmpeg/fftools/ffmpeg.c:764-799 | in every run no packet with both times has pts before dts |
| MuxWriter.MuxerGetsAdmitted | middlewares/FFmpeg/fftools/ffmpeg.c:704-734 | whenever the header is written, the muxer gets exactly the first max_frames packets in arrival order |
| MuxWriter.WaitingIsBounded | middlewares/FFmpeg/fftools/ffmpeg.c:712-734 | the waiting queue never holds more than the larger of 8 and its limit |
| MuxRuns.EveryRunIs | middlewares/FFmpeg/fftools/ffmpeg.c:690-799 | the state after any run, told from the run alone |
| MuxRuns.ExitIff | middlewares/FFmpeg/fftools/ffmpeg.c:715-728 | a run exits if and only if more packets wait for the header than the larger of 8 and the limit, or the repair gives up, which it never does without exit_on_error |
| MuxRuns.OutIs | middlewares/FFmpeg/fftools/ffmpeg.c:704-799 | until then the muxer has got exactly the repaired packets, and nothing before the header |
| MuxRuns.InOrderUntouched | middlewares/FFmpeg/fftools/ffmpeg.c:736-799 | packets whose times are in order leave with exactly their own times in the new time base |
| MuxWriter.OutputStream.WritePacket | middlewares/FFmpeg/fftools/ffmpeg.c:690-799 | the state in place changes as the function on values says |
| MuxWriter.OutputStream.QueuePacket | middlewares/FFmpeg/fftools/ffmpeg.c:712-733 | the queue doubles up to its limit, and the program exits beyond it |
| MuxWriter.OutputStream.InitOutputFile | middlewares/FFmpeg/fftools/ffmpeg.c:2993-3013 | the drain writes every waiting packet, in order and uncounted |
| MuxWriter.OutputStream.RepairTimes | middlewares/FFmpeg/fftools/ffmpeg.c:764-799 | the repair in place, failing exactly where the program exits on error |
| StreamSplit.SegmentShape | application/src/file_receiver.cpp:135-173 | a frame starts with the first start code of its segment and contains the delimiter at its end and nowhere else |
| StreamSplit.TilesAreBytes | application/src/file_receiver.cpp:191-212 | garbage and frames of segments in a row concatenate to the bytes they were taken from |
| FileReceiver.ReceivedIsPrefix | application/src/file_receiver.cpp:79-212 | what is emitted begins the reference split of the file |
| FileReceiver.ReceivedBytes | application/src/file_receiver.cpp:79-212 | dropped garbage and emitted frames concatenate to exactly the bytes consumed |
| FileReceiver.FramesFit | application/src/file_receiver.cpp:120-132 | every frame is shorter than one MiB |
| FileReceiver.TooLongIff | application/src/file_receiver.cpp:101-118 | a run gives up if and only if a full MiB that starts where a segment ends (or at 0) has no delimiter ending before its last byte; otherwise it passes |
| FileReceiver.LossIsBounded | application/src/file_receiver.cpp:175-189 | a passing run misses only segments that begin in the last MiB of the file |
| FileReceiver.EmittedIff | application/src/file_receiver.cpp:79-189 | a segment of the reference split is emitted if and only if it ends before the last byte of the run's last successful read |
| FileReceiver.PassesWithoutFramesIff | application/src/file_receiver.cpp:92-97 | a run passes without a frame if and only if the file is below one MiB |
| FileReceiver.FileReceiver.GetOneFrameStream | application/src/file_receiver.cpp:135-173 | finds the first delimiter that ends before the last byte of the window, and the first start code of its segment |
| FileReceiver.FileReceiver.ReadStreamFromFile | application/src/file_receiver.cpp:175-189 | fills the window up completely or fails |
| FileReceiver.FileReceiver.MoveTmpBuffer | application/src/file_receiver.cpp:205-212 | the window then shows the bytes after the frame |
| FileReceiver.FileReceiver.RecvStream | application/src/file_receiver.cpp:79-133 | emits the next segment's frame unmodified or takes one of the exits, exactly as the file and the window dictate, with at most one read, and never at the check after the scan |
| StreamPipeline.NextKeepsBuffers | application/src/stream_buffer.cpp:53-120 | no step makes, loses or duplicates a buffer |
| StreamPipeline.EachBufferIsInOnePlace | application/src/stream_buffer.cpp:38-120 | in every reachable state each buffer is in exactly one of the two queues and the two hands |
| StreamPipeline.NextKeepsInv | application/src/receiver_base.cpp:98-132 | every step of either thread keeps the frames checked and in flight equal to those emitted |
| StreamPipeline.CheckedThenInFlight | application/src/checker_base.cpp:98-129 | in every reachable state the frames checked, then those in flight, are the emitted frames longer than 6 bytes, unmodified and in order, and a prefix of the reference split's |
| StreamPipeline.UncheckedIsBounded | application/src/receiver_base.cpp:98-132 | fewer frames than buffers are unchecked whenever the receiver is at work |
| StreamPipeline.NeverStuck | application/src/receiver_base.cpp:98-132 | some thread can move until the receiver reaches an exit |
| StreamPipeline.AllCheckedAtExitIff | application/src/file_receiver.cpp:92-116 | every run that reaches an exit has checked all frames emitted if and only if there is one buffer only or the file gives no long frame |
| StreamPipeline.PassesUnchecked | application/src/file_receiver.cpp:92-116 | a file of one MiB that, with ten buffers, can pass with its only frame unchecked |

## Left out

- `decode_i_frame`, `decode_i2_frame`, the IDCT and colour conversion of 4xm.c: long fixed-point formulas.
- The stream headers of `decode_p_frame`, the byte swap of its bit stream and `init_mv`: the three streams
  and the motion table are arbitrary inputs. After the last bit, zero bits are read, as from a padded buffer.
- `get_vlc2`: modelled as finding the code word that the bits start with.
- `init_vlc`: modelled by the conditions on which it succeeds, not by its tables. A clash of two codes of more than
  9 bits each may escape it in a table of the second level; no such table arises without a clash in the first one.
- Big-endian hosts: the other form of `LE_CENTRIC_MUL` carries between its pixels in the other direction.
- PBlockDecoder.FourXContext.DecodePFrame: the picture is whole 8x8 blocks, as `decode_init` demands, and as wide as its stride.
- FragmentReassembly.CompletedIsConcatenation: a new id needs a free slot; without one the source indexes at -1, and
  when that happens is said by RunsIff. `avctx->frame_number`, which only warns, is not part of this model.
- Allocation failure, and wrap-around of 64-bit timestamps and of counters.
- PacketQueue.PacketQueue.GetPacket: the wait on the condition variable is the answer "nothing"; the caller asks again.
- DecoderSerials.SerialsNeverMix: each queue flush is followed by a flush packet before any other put,
  as all callers in ffplay.c do; the codec's answers are arbitrary. Timestamps of frames are not modelled.
- FrameRing.PeeksAreFifo: aborted peeks, which return NULL, are blocked steps; the frames' contents are two numbers.
- Clocks, A/V sync, SDL, and the drawing of samples in ffplay.c: doubles, wall time and user interface.
- FilterChain.OutputStream.OutputPacket: filters are transducers with finite output per packet and no errors of their own;
  a blank packet, which the library takes for an end of stream, is never fed. What a filter emits is fixed when it is
  sent its input, and its input is held until all of that has been taken.
- MuxWriter.OutputStream.WritePacket: quality side data, the duration override and errors of the muxer; rescaling is an
  arbitrary function that keeps the missing time missing.
- One output stream at a time: other streams of a file share only the header flag.
- `UdpReceiver`, `H264Checker`, `fopen` and `fread` failures, log text and the start-up of the threads. An exit is a
  terminal state, and checking a frame is one step with no verdict.
- FileReceiver.FileReceiver.RecvStream: `mFoundBegin` and `mFoundEnd`, which the constructor leaves unset, start at 0.
