# Verified core of the KWDB time-series engine

This project models the hard parts of `kwdbts2`, the C++ time-series storage engine of KWDB, in Dafny 4.11 and proves
what they promise. Run `dafny verify dfyconfig.toml` to check it.

What is modelled, and the main result about each part:

- **Column codecs** (`Words`, `Simple8BWords`, `Simple8BV1`, `Simple8BV2`, `BitStream`, `Chimp`, `Gorilla`, `GorillaV2`).
  The greedy encoders are the loops of the source, the decoders are their mirror images, and the round trips hold for
  every column. For the two Simple8B encoders and GorillaIntV2 the set of accepted columns is characterised exactly.
  The first Gorilla coder accepts columns that it does not give back; it is exact if and only if every delta fits 32
  bits (`Gorilla.DecodedExactIff`), and `Gorilla.AcceptedButLost` is a column it loses.
- **Raft log store** (`RaftIndex`, `RaftReplay`, `RaftPromise`, `RaftStore`, `RaftFile`, `RaftRecovery`). The index over
  linked lists, updated in place, is proved equal to a value-level description of each operation. What each operation
  leaves behind is stated per operation, and in every run each entry of the live index and of the rebuilt one points at
  the bytes of the value it stands for (`RaftPromise.RunReadsValues`). Over every run of operations and
  file rotations, replaying the files rebuilds the live index if and only if every operation was inside its domain
  (`RaftReplay.RunIff`); the domains are stated per operation and are exact, and `RaftReplay.OutsideTheDomain` and
  `RaftReplay.EmptySpanDropsAll` are runs that leave them. When a span delete removes exactly its span is stated for
  every list, with holes or without (`RaftIndex.DeleteKeepsPromise`). Loading a byte prefix of a file replays exactly its whole
  records if and only if the record it ends in is seen to be torn (`RaftFile.TornTail`). It is not seen when its PUT
  header is cut and the size then read from behind the buffer makes the 64-bit end of the record wrap:
  `RaftFile.WrappedTail` is such a file, and `RaftRecovery.NeverEnds` says when loading does not come to an end.
  From every other cut a run is recovered as it was behind its last action whose records survived, if and only if the
  cut does not fall between the two records of a put (`RaftRecovery.RecoverRun`); there the index is neither that of
  before the put nor that of after it, and may be one that was never live (`RaftReplay.HalfPutRun`).
- **Deletes and scans** (`DelRange`, `SegmentScan`). Subtracting delete rectangles from scan rectangles is exact set
  difference, with multiplicities, for real OSNs. A scan of a partition, over its last segments and its entity segment,
  returns exactly the requested rows that are not deleted, each once where the requested spans do not repeat
  (`SegmentScan.ScanPartition`).
- **Query iterators** (`OffsetFilter`, `OffsetScan`, `BlockFilter`, `BlockPrune`, `Aggregate`, `AggregateWalk`). Offset
  and limit by bisecting time give the same window as sorting everything, over all partitions of a query, if offset and
  limit add up below 2^31 and fewer than 1000 rows lie in any stretch of time too narrow to be halved
  (`OffsetScan.Scan`); `OffsetScan.WideLimit` and `OffsetScan.DenseRows` are queries beyond either bound that lose
  rows. Pruning drops exactly the blocks that are ruled out by their statistics and meet no other block, and it
  commutes with every rule for merging rows of equal timestamps; aggregation that walks from both ends gives the answers of a full scan, and flags
  a sum exactly when it leaves 64 bits along the order of the walk.
- **Entity segments** (`EntitySegment`, `EntityTable`, `BlockSplit`, `SegmentMerge`, `FlushScan`). Rows are split into
  blocks without loss, the entity table stays dense, chains stay acyclic and sum up to the item they hang from, and
  merging a memory segment into a disk segment keeps every chain and every byte. A scan after a flush finds what it
  found in memory and on disk, if and only if an entity that is in both belongs to the same table in both
  (`FlushScan.FlushFindsIff`); `FlushScan.LostByTable` is a flush that loses a row of the disk table.
- **LRU block cache** (`LruBlockCache`). The doubly linked list on the heap, spliced by moving links, is the recency
  order, and its memory account is the sum over the list.
- **Snapshot packages** (`SnapshotWire`, `Snapshot`). Packages survive their encoding, and over every interleaving with
  losses, repetitions and reorderings the receiver has applied a prefix of what the sender reads, to the sender's table
  and version.

Integers of the source are modelled with their width where a value can wrap or a check can fail, unless "Left out" says
otherwise. Clocks, files and
network are parameters or explicit state. Where the source has objects that change in place, the model has classes with
the same fields, and ghost fields that give their abstract value.

## Model

| member | source | states |
|---|---|---|
| Words.LERoundTrip | kwdbts2/ts_engine/include/ts_coding.h:51-123 | fixed-width little-endian integers decode to themselves |
| Words.VarintRoundTrip | kwdbts2/ts_engine/include/ts_coding.h:69-105 | a varint followed by anything decodes to the value and the rest |
| Words.ZigZagRoundTrip | kwdbts2/ts_engine/include/ts_coding.h:228-237 | zigzag is inverted, and fits n bits exactly when the signed value does |
| Words.WrapsAreSigned | kwdbts2/ts_engine/ts_compressor_impl.cpp:185-230 | the conversions to int64 and int32 are the two's-complement reading of the low bits |
| Simple8BWords.PaddingAgrees | kwdbts2/ts_engine/ts_compressor_impl.cpp:488-507 | for every packing selector both padding shifts are equal and the group plus padding is 60 bits |
| Simple8BWords.SelectorFits | kwdbts2/ts_engine/ts_compressor_impl.cpp:488-507 | the selector looked up for a width holds it and is the least that does |
| Simple8BWords.UnpackItem | kwdbts2/ts_engine/ts_compressor_impl.cpp:841-868 | shifting and masking a packed word gives back item i |
| Simple8BWords.PackedWord | kwdbts2/ts_engine/ts_compressor_impl.cpp:780-795 | a packed group is a 64-bit word whose selector and items read back |
| Simple8BV2.CheckedSubExact | kwdbts2/ts_engine/ts_compressor_impl.cpp:650-662 | the overflow flag is set exactly when the difference does not fit the type, and otherwise the difference is exact |
| Simple8BV2.ScanGroup | kwdbts2/ts_engine/ts_compressor_impl.cpp:711-757 | the greedy scan stops at a group that fits its selector, with its leading run; it fails only on a column that cannot be encoded |
| Simple8BV2.EmitGroup | kwdbts2/ts_engine/ts_compressor_impl.cpp:759-795 | the word emitted holds exactly the items of a non-empty prefix of the group |
| Simple8BV2.RunWord | kwdbts2/ts_engine/ts_compressor_impl.cpp:759-779 | a run-length word expands to the run |
| Simple8BV2.PackGroup | kwdbts2/ts_engine/ts_compressor_impl.cpp:780-795 | a packed word expands to the group |
| Simple8BV2.ValuesExact | kwdbts2/ts_engine/ts_compressor_impl.cpp:841-872 | adding up the second differences modulo the type's width gives back the column |
| Simple8BV2.BodyDecodes | kwdbts2/ts_engine/ts_compressor_impl.cpp:841-872 | words that hold the items of the rest of a column decode to it, fill exactly its slots and use every byte |
| Simple8BV2.StreamDecodes | kwdbts2/ts_engine/ts_compressor_impl.cpp:802-874 | header and words together decode to the column |
| Simple8BV2.Compress | kwdbts2/ts_engine/ts_compressor_impl.cpp:666-799 | succeeds exactly on the columns whose differences fit the type and whose zigzagged second differences fit 60 bits; the output decodes to the input |
| Simple8BV2.Decompress | kwdbts2/ts_engine/ts_compressor_impl.cpp:802-874 | the decoding loop computes the decoding function on every input, failures included |
| Simple8BV2.RoundTrip | kwdbts2/ts_engine/ts_compressor_impl.cpp:891-900 | compressing and decompressing returns the column whenever it is encodable |
| Simple8BV1.ScanGroup1 | kwdbts2/ts_engine/ts_compressor_impl.cpp:528-559 | the scanned group fits its selector, a long one is a run of one value, and failure means a value over 60 bits |
| Simple8BV1.EmitGroups | kwdbts2/ts_engine/ts_compressor_impl.cpp:560-594 | the words emitted so far expand to the prefix of the column they stand for, and the loop moves on |
| Simple8BV1.PackGroup1 | kwdbts2/ts_engine/ts_compressor_impl.cpp:580-592 | a packed word expands to the group |
| Simple8BV1.VisitsAll | kwdbts2/ts_engine/ts_compressor_impl.cpp:615-647 | with the right count the decoder visits every word and never writes past its output |
| Simple8BV1.Compress1 | kwdbts2/ts_engine/ts_compressor_impl.cpp:526-596 | fails exactly when some (zigzagged) value needs more than 60 bits; otherwise the words are in bounds for the count and expand to the column |
| Simple8BV1.Decompress1 | kwdbts2/ts_engine/ts_compressor_impl.cpp:615-647 | fails exactly on a length that is no multiple of 8; otherwise writes the visited items in order |
| Simple8BV1.RoundTrip1 | kwdbts2/ts_engine/ts_compressor_impl.cpp:879-889 | compressing and decompressing returns the column whenever it is encodable |
| Chimp.LeadIndex | kwdbts2/ts_engine/ts_compressor_impl.cpp:356-411 | the index chosen is the largest mapped lead that is not more than the leading zeros |
| Chimp.CenterHeader | kwdbts2/ts_engine/ts_compressor_impl.cpp:384-396 | tag, lead index and center length in one 11-bit write read back separately; the length fits 6 bits |
| Chimp.XorRoundTrip | kwdbts2/ts_engine/ts_compressor_impl.cpp:375-478 | for each of the four cases the decoder recovers the xor, ends up with the encoder's lead index and stops at the next word |
| Chimp.DecodeFromEncoded | kwdbts2/ts_engine/ts_compressor_impl.cpp:413-483 | from equal states, decoding the rest of a stream gives the rest of the column |
| Chimp.Compress | kwdbts2/ts_engine/ts_compressor_impl.cpp:358-411 | the stream written, with anything behind it, decodes to the column, for 32- and 64-bit words |
| Chimp.Decompress | kwdbts2/ts_engine/ts_compressor_impl.cpp:413-483 | the decoding loop computes the decoding function on every input |
| Gorilla.DodRoundTrip | kwdbts2/ts_engine/ts_compressor_impl.cpp:108-234 | every class of delta-of-delta reads back as the value or as its residue modulo 2^32 |
| Gorilla.RunningDelta | kwdbts2/ts_engine/ts_compressor_impl.cpp:185-230 | the decoder's 32-bit delta stays congruent to the true delta even when a delta-of-delta does not fit |
| Gorilla.StreamDecodes | kwdbts2/ts_engine/ts_compressor_impl.cpp:162-234 | what any accepted column decodes to, exact or not |
| Gorilla.DecodedExactIff | kwdbts2/ts_engine/ts_compressor_impl.cpp:108-234 | an accepted column is given back if and only if every delta fits int32 |
| Gorilla.AcceptedButLost | kwdbts2/ts_engine/ts_compressor_impl.cpp:108-234 | a concrete accepted column that is not given back |
| Gorilla.Compress | kwdbts2/ts_engine/ts_compressor_impl.cpp:108-160 | accepts exactly the columns its overflow checks pass, and its stream decodes to the described column |
| Gorilla.Decompress | kwdbts2/ts_engine/ts_compressor_impl.cpp:162-234 | the decoding loop computes the decoding function on every input |
| GorillaV2.PutGet | kwdbts2/ts_engine/ts_compressor_impl.cpp:276-311 | a zigzagged varint followed by anything reads back |
| GorillaV2.StreamDecodes | kwdbts2/ts_engine/ts_compressor_impl.cpp:276-354 | every accepted column decodes to itself |
| GorillaV2.Compress | kwdbts2/ts_engine/ts_compressor_impl.cpp:277-311 | accepts exactly when deltas and second deltas fit the type; the output decodes to the input |
| GorillaV2.Decompress | kwdbts2/ts_engine/ts_compressor_impl.cpp:313-354 | the decoding loop computes the decoding function on every input |
| RaftIndex.HasIff | kwdbts2/engine/raft_store.cpp:57-76 | walking a descending list stops at an index exactly when the list has it |
| RaftIndex.PutKeepsPromise | kwdbts2/engine/raft_store.cpp:29-80 | a put leaves the new entry on the entries below it (section 5.3 of the Raft paper) if and only if it is not below the oldest entry |
| RaftIndex.LoadKeepsPromise | kwdbts2/engine/raft_store.cpp:82-115 | replay inserts an entry in its place, instead of one with its index, if and only if its index is not the newest one; then the index is in the list twice |
| RaftIndex.TruncateKeepsPromise | kwdbts2/engine/raft_store.cpp:453-492 | truncation leaves exactly the entries at or above the index |
| RaftIndex.DeleteKeepsPromise | kwdbts2/engine/raft_store.cpp:391-451 | on every descending list and for every span, empty ones included, a span delete removes exactly the span if and only if the list misses it, or has an entry at each end of the span that it reaches beyond and does not begin with the span's start before older entries |
| RaftIndex.DeleteKeepsPromiseContiguous | kwdbts2/engine/raft_store.cpp:391-451 | on a contiguous list only the last of these can fail |
| RaftIndex.DeleteKeepsContiguousIff | kwdbts2/engine/raft_store.cpp:391-451 | a span delete leaves no hole if and only if it reaches one end of the list |
| RaftReplay.PutStepIff | kwdbts2/engine/raft_store.cpp:29-115 | replaying a put's records gives the live index if and only if the put is in its domain |
| RaftReplay.TruncateStepIff | kwdbts2/engine/raft_store.cpp:453-492 | the same for truncation |
| RaftReplay.DeleteStepIff | kwdbts2/engine/raft_store.cpp:391-451 | the same for span deletes |
| RaftReplay.ClearStepIff | kwdbts2/engine/raft_store.cpp:494-510 | the same for clearing a range; what clearing leaves is RaftPromise.ClearKeepsPromise |
| RaftReplay.StateStepIff | kwdbts2/engine/raft_store.cpp:139-165 | the same for writing, deleting and reading the status entry; what they leave is RaftPromise.StateKeepsPromise |
| RaftReplay.StepIff | kwdbts2/engine/raft_store.cpp:183-232 | the same for every operation of a batch |
| RaftReplay.NonEmptySpanOk | kwdbts2/engine/raft_store.cpp:391-451 | every span delete that holds an entry of the list is in the domain |
| RaftReplay.LiveKeepsValid | kwdbts2/engine/raft_store.cpp:183-232 | lists stay strictly descending and non-empty |
| RaftReplay.RotateKeeps | kwdbts2/engine/raft_store.cpp:167-181 | starting a new file does not change what loading rebuilds |
| RaftReplay.RunRebuilds | kwdbts2/engine/raft_store.cpp:183-232 | over every run inside the domain, loading the files rebuilds the live index after each step |
| RaftReplay.RunIff | kwdbts2/engine/raft_store.cpp:573-638 | a run is inside the domain if and only if the rebuilt index agrees with the live one after every step |
| RaftReplay.RunContiguous | kwdbts2/engine/raft_store.cpp:29-115 | lists stay contiguous over every such run whose span deletes leave no hole |
| RaftReplay.OutsideTheDomain | kwdbts2/engine/raft_store.cpp:29-510 | runs on a fresh store after which live index and replay disagree: a second write of the newest index, a truncation past it, a clear of a range with both kinds of entries, a status read of a range without one |
| RaftReplay.PutIntoHole | kwdbts2/engine/raft_store.cpp:29-80 | the same for puts into a hole and below the oldest entry |
| RaftReplay.RebuildPrefix | kwdbts2/engine/raft_store.cpp:183-232 | what any prefix of the current file's records rebuilds: the live index behind the last action that wrote all its records if and only if nothing more survived, otherwise that index with the first of the next put's two records replayed, which is neither the one before that put nor the one after it |
| RaftReplay.HalfPutRun | kwdbts2/engine/raft_store.cpp:29-80 | a run inside the domain that loses the last record of a put behind a gap and rebuilds an index that was never live |
| RaftReplay.EmptySpanDropsAll | kwdbts2/engine/raft_store.cpp:391-451 | a run in which deleting an empty span drops the whole list of a range without a record, so that replay brings its entries back |
| RaftStore.Index.constructor | kwdbts2/engine/raft_store.cpp:642-737 | a new store is the empty run |
| RaftStore.Index.Reload | kwdbts2/engine/raft_store.cpp:642-737 | loading every file in order builds the replayed index on the heap |
| RaftStore.Index.PutIndex | kwdbts2/engine/raft_store.cpp:29-80 | the linked list and the records appended are those of the put |
| RaftStore.Index.LoadIndex | kwdbts2/engine/raft_store.cpp:82-115 | replay's insertion into the linked list |
| RaftStore.Index.DeleteEntries | kwdbts2/engine/raft_store.cpp:391-451 | the nodes unlinked and the span reported are those of the span delete |
| RaftStore.Index.TruncateEntries | kwdbts2/engine/raft_store.cpp:453-492 | the nodes unlinked and the index reported are those of the truncation |
| RaftStore.Index.Apply | kwdbts2/engine/raft_store.cpp:139-165 | one operation on the heap index has the effect and the records that RaftPromise describes |
| RaftStore.Index.LoadRecord | kwdbts2/engine/raft_store.cpp:573-638 | one record on the heap index has the effect of replaying it |
| RaftStore.Index.WriteRaftLog | kwdbts2/engine/raft_store.cpp:183-232 | a batch of operations is the run of its actions, with a new file when the current one is too long; one with an operation of unknown type leaves the operations before it in the index and nothing on disk, and the index can still be rebuilt if and only if they changed nothing |
| RaftStore.Index.Get | kwdbts2/engine/raft_store.cpp:253-283 | one walk down the list returns the entries of a span, if and only if the list has every one of them |
| RaftPromise.LiveTouchesOneRange | kwdbts2/engine/raft_store.cpp:183-232 | an operation changes nothing about another range and writes no record of one |
| RaftPromise.ClearKeepsPromise | kwdbts2/engine/raft_store.cpp:494-510 | after a clear neither a list nor a status entry of the range is left if and only if it did not have both; if it had both, its list stays; a record is written exactly when there was something to clear |
| RaftPromise.StateKeepsPromise | kwdbts2/engine/raft_store.cpp:139-165 | a status write leaves an entry for the end of what it appends, a status delete leaves none, reading an absent one leaves an empty slot; lists stay as they are |
| RaftPromise.DataKeepsPromise | kwdbts2/engine/raft_store.cpp:29-80 | the list after a put, a truncation or a span delete is the promised one, under the exact condition of each; the new entry is for the end of what is appended; status entries stay as they are |
| RaftPromise.RunPoints | kwdbts2/engine/raft_store.cpp:117-165 | in every run each entry points right behind the header of a PUT record with its range, index and size, in the file it names |
| RaftPromise.RebuildPoints | kwdbts2/engine/raft_store.cpp:573-638 | the same holds of the index rebuilt from any files |
| RaftPromise.RunReadsValues | kwdbts2/engine/raft_store.cpp:117-165 | in every run the bytes an entry points at, live or rebuilt, are the value stored with that record |
| RaftPromise.LastRecordDecides | kwdbts2/engine/raft_store.cpp:573-638 | a file rebuilds nothing for a range after its CLEAR, no status entry after a status delete, and after a status PUT the entry for that record |
| RaftPromise.StatusBytes | kwdbts2/engine/raft_store.cpp:117-165 | the bytes of the status entry written last are the value just appended |
| RaftFile.ParseWhole | kwdbts2/engine/raft_store.cpp:546-640 | a whole record is parsed as itself |
| RaftFile.ParseTorn | kwdbts2/engine/raft_store.cpp:573-590 | loading stops at a record cut by the end of the current file if and only if it is no PUT, or its 25 header bytes are there, or offset, header and the size read, added modulo 2^64, lie behind the buffer; otherwise it goes on inside the buffer |
| RaftFile.TornTail | kwdbts2/engine/raft_store.cpp:546-640 | loading a byte prefix of the current file replays exactly its whole records if and only if the record it ends in is seen to be torn, and then ends with their state |
| RaftFile.WrappedTail | kwdbts2/engine/raft_store.cpp:577-590 | a prefix and a memory behind it for which the torn PUT is not seen: a wrapped end, an entry that was never written, and a failure |
| RaftFile.WholeFile | kwdbts2/engine/raft_store.cpp:546-640 | a whole file, current or closed, loads as its records |
| RaftFile.AppendAfterRecovery | kwdbts2/engine/raft_store.cpp:546-560 | records appended behind a cut between two records are replayed after the whole ones |
| RaftFile.AppendAfterTorn | kwdbts2/engine/raft_store.cpp:546-640 | a record appended behind a torn byte is misread as another one and the load fails |
| RaftRecovery.NeverEnds | kwdbts2/engine/raft_store.cpp:571-638 | the loop ends within as many rounds as the buffer has bytes, or never |
| RaftRecovery.LoadFile | kwdbts2/engine/raft_store.cpp:546-640 | the loading loop updates the heap index to that state and reports success, failure or that it never ends |
| RaftRecovery.Recover | kwdbts2/engine/raft_store.cpp:717-729 | loading all files in order builds the state of their bytes on the heap |
| RaftRecovery.RecoverRun | kwdbts2/engine/raft_store.cpp:642-737 | from whole closed files and any cut of the current one that is seen: the index is the live one behind the last action whose records are all there if and only if the whole records end where its file ended; otherwise they end 25 bytes later, between the two records of a put, and the index is that one with the first of them replayed |
| DelRange.MergeRangeCross | kwdbts2/ts_engine/ts_del_item_manager.cpp:36-112 | what is left of one rectangle, point by point and with the clamped extremes |
| DelRange.MergeScanAndDelRange | kwdbts2/ts_engine/ts_del_item_manager.cpp:22-30 | one delete subtracted from all ranges: every point with a real OSN is covered as often as before, or not at all if deleted |
| DelRange.SubtractAll | kwdbts2/ts_engine/ts_version.cpp:916-921 | any list of deletes: exact set difference with multiplicities, so independent of their order and disjoint if the input is |
| DelRange.IsOsnAfterSpans | kwdbts2/ts_engine/include/ts_ts_lsn_span_utils.h:86-93 | true exactly when every span ends before the OSN |
| DelRange.ScanFilter | kwdbts2/ts_engine/ts_version.cpp:895-936 | the scan ranges of a partition cover a point once for every pair of a time span and an OSN span that hold it, within the partition, and not at all if a delete holds it that ends within or before some OSN span; if every delete that holds it ends behind all OSN spans, it stays |
| DelRange.CoverSelected | kwdbts2/ts_engine/ts_version.cpp:895-936 | covered exactly when the point lies in the partition, in a time span and in an OSN span, and no delete that ends by the end of some OSN span holds it; at most once where the requested spans are apart |
| SegmentScan.SplitRuns | kwdbts2/ts_engine/ts_entity_segment.cpp:546-566 | splitting by OSN returns each matching row once and no other |
| SegmentScan.GetRowSpans | kwdbts2/ts_engine/ts_entity_segment.cpp:499-576 | every row is returned once for each range that holds its timestamp and OSN |
| SegmentScan.RelationMeans | kwdbts2/ts_engine/include/ts_ts_lsn_span_utils.h:122-149 | the relation of two OSN spans says exactly whether they share an OSN and whether one holds the other |
| SegmentScan.ReadableIff | kwdbts2/ts_engine/ts_entity_segment.cpp:195-206 | the blocks a scan may read are those of the chain above the first readable one, if the entity belongs to the table |
| SegmentScan.GetBlockSpans | kwdbts2/ts_engine/ts_entity_segment.cpp:183-287 | walking the entity's block chain down to the first readable block returns exactly the rows in some range, oldest block first, within the rows of their block, and once where ranges are disjoint; an entity of another table has none |
| SegmentScan.ScanLastBlock | kwdbts2/ts_engine/ts_lastsegment.cpp:775-865 | the rows of one entity in one block that one range wants, each once |
| SegmentScan.GetLastBlockSpans | kwdbts2/ts_engine/ts_lastsegment.cpp:718-873 | over all blocks of a last segment, each row of the entity once for every range that holds it, and no other |
| SegmentScan.ScanPartition | kwdbts2/ts_engine/ts_version.cpp:938-998 | one filter over every last segment and the entity segment: exactly the rows in the requested spans that no delete ending by the end of some OSN span holds, once where the spans are apart |
| EntitySegment.WalkFrom | kwdbts2/ts_engine/ts_entity_segment.cpp:161-181 | ids strictly fall along a chain and all its blocks belong to one entity |
| EntitySegment.WalkKept | kwdbts2/ts_engine/ts_entity_segment_builder.cpp:76-87 | appending blocks changes no existing chain |
| EntitySegment.GetAllBlockItems | kwdbts2/ts_engine/ts_entity_segment.cpp:161-181 | the walk ends and returns the items of the entity's chain, newest first |
| BlockSplit.CutConserves | kwdbts2/ts_engine/ts_entity_segment_builder.cpp:557-604 | blocks and rest together are the rows in order; all blocks but the last are full, and the last too if there is a rest; block sizes are within their limits, and blocks are cut as long as enough rows are left |
| BlockSplit.OneCut | kwdbts2/ts_engine/ts_entity_segment_builder.cpp:557-604 | this determines the cut: there is one only |
| BlockSplit.Splitter.Append | kwdbts2/ts_engine/ts_entity_segment_builder.cpp:178-242 | filling a block moves a prefix of the cached rows and reports when it is full |
| BlockSplit.Splitter.WriteCachedBlockSpan | kwdbts2/ts_engine/ts_entity_segment_builder.cpp:557-604 | the loop over cached spans writes and sends back exactly the cut of the cached rows, and the cached count ends at 0 |
| EntityTable.OwnSlot | kwdbts2/ts_engine/ts_entity_segment_builder.cpp:482-499 | after a block the item still sums up its chain, which has the block in front |
| EntityTable.OtherSlot | kwdbts2/ts_engine/ts_entity_segment_builder.cpp:76-87 | a block of another entity leaves an item's chain alone |
| EntityTable.TableBuilder.UpdateEntityItem | kwdbts2/ts_engine/ts_entity_segment_builder.cpp:432-500 | files the previous item, copies the items in between, links the block and advances the item, keeping the table dense and the chains valid |
| EntityTable.TableBuilder.Finish | kwdbts2/ts_engine/ts_entity_segment_builder.cpp:712-734 | the finished table has one item per id, in its slot |
| EntityTable.Compact | kwdbts2/ts_engine/ts_entity_segment_builder.cpp:613-734 | a whole run in entity order: chains are the new blocks followed by the old chain, row counts and time bounds sum up the chain, the table of an entity with new blocks is the one of its key, dropped flags stay, untouched items are copied |
| EntityTable.BatchBuilder.WriteBatch | kwdbts2/ts_engine/ts_entity_segment_builder.cpp:749-849 | one block of any entity, with the items of other entities untouched; unknown versions are refused and a finished builder ignores blocks; the table of an entity is the one it had or, where it had none, the one of its first batch |
| EntityTable.BatchBuilder.WriteBatchFinish | kwdbts2/ts_engine/ts_entity_segment_builder.cpp:851-919 | the table written is dense and valid, with the touched items, their tables and copies of all others; dropped flags stay |
| EntityTable.TableOfKeys | kwdbts2/ts_engine/ts_entity_segment_builder.cpp:774-780 | an entity whose batches all name one table, and that had none or this one before, ends with that table |
| SegmentMerge.MergeEntities | kwdbts2/ts_engine/ts_entity_segment_builder.cpp:1066-1109 | the entity items, edited in place or in a larger buffer, are the merged items; what they keep is MergeKeepsFields |
| SegmentMerge.MergeBlocks | kwdbts2/ts_engine/ts_entity_segment_builder.cpp:1111-1128 | the block items edited in place get new ids, offsets and links |
| SegmentMerge.NormalFlush | kwdbts2/ts_engine/ts_entity_segment_builder.cpp:1187-1221 | the files after the flush are the merge of both segments; what it keeps is MergeKeepsChains, MergeKeepsFields and MergeKeepsBytes |
| SegmentMerge.MemWalk | kwdbts2/ts_engine/ts_entity_segment_builder.cpp:1111-1128 | a walk from a memory block runs through the memory chain and then through the entity's disk chain |
| SegmentMerge.MergeKeepsChains | kwdbts2/ts_engine/ts_entity_segment_builder.cpp:1066-1131 | every chain is the shifted memory chain followed by the disk chain; rows add up, time bounds combine, and the table is valid |
| SegmentMerge.MergeKeepsFields | kwdbts2/ts_engine/ts_entity_segment_builder.cpp:1066-1131 | an entity with blocks in memory has its table and dropped flag from there, one with blocks on disk only keeps its item; every block keeps its entity, table, rows, time bounds and lengths |
| SegmentMerge.MergeKeepsBytes | kwdbts2/ts_engine/ts_entity_segment_builder.cpp:1111-1221 | every block and aggregate is read back as the same bytes as before |
| FlushScan.FlushKeepsContents | kwdbts2/ts_engine/ts_entity_segment_builder.cpp:1111-1221 | however blocks are decoded, the merged segment holds the disk blocks and then the memory blocks |
| FlushScan.FlushFinds | kwdbts2/ts_engine/ts_entity_segment.cpp:183-206 | a scan of the merged segment reads the memory blocks and then the disk blocks it could read before, for every lowest readable block, if the tables agree |
| FlushScan.FlushFindsIff | kwdbts2/ts_engine/ts_entity_segment_builder.cpp:1084-1108 | it does so for every table if and only if an entity with blocks in both has the same table in both |
| FlushScan.LostByTable | kwdbts2/ts_engine/ts_entity_segment_builder.cpp:1098-1108 | a disk row that is not found for its table after a flush, because the memory item names another table |
| FlushScan.FlushThenScan | kwdbts2/ts_engine/ts_entity_segment_builder.cpp:1187-1221 | a flush and then a scan: exactly the rows in some range of the blocks that could be read in memory and on disk |
| OffsetFilter.SplitRow | kwdbts2/ts_engine/ts_iterator_v2_impl.cpp:3264-3281 | the binary search finds the last (reversed: first) row on the lower side of the middle |
| OffsetFilter.OffsetIterator.Divide | kwdbts2/ts_engine/ts_iterator_v2_impl.cpp:3247-3305 | the queue is split at the middle without losing a row, forwards and reversed |
| OffsetFilter.OffsetIterator.FilterLower | kwdbts2/ts_engine/ts_iterator_v2_impl.cpp:3307-3342 | the rows dropped precede all kept ones, their number, compared as uint32, stays below the offset, and what is undecided is few or narrow |
| OffsetFilter.OffsetIterator.FilterUpper | kwdbts2/ts_engine/ts_iterator_v2_impl.cpp:3344-3380 | the rows kept precede all discarded ones and are at least as many as asked for, or all |
| OffsetFilter.OffsetIterator.constructor | kwdbts2/ts_engine/include/ts_iterator_v2_impl.h:279-294 | offset and limit narrow from uint32 to int32 and convert back to themselves |
| OffsetFilter.OffsetIterator.FilterPartition | kwdbts2/ts_engine/ts_iterator_v2_impl.cpp:3488-3531 | the rows fall into dropped, kept and discarded ones in scan order, with the number of rows needed taken modulo 2^32; reading what is kept and skipping what is left of the offset gives the window of the sorted partition when offset and limit add up below 2^32 |
| OffsetFilter.SameWindow | kwdbts2/ts_engine/ts_iterator_v2_impl.cpp:3488-3531 | for every scan-ordered listing of all rows there is one of the kept rows with the same window |
| OffsetScan.Scan | kwdbts2/ts_engine/ts_iterator_v2_impl.cpp:3533-3555 | over all partitions of a query: for offset and limit below 2^31 together and sparse rows, what is kept holds the window of all rows; nothing is read when their int32 sum is not positive |
| OffsetScan.NothingReadIff | kwdbts2/ts_engine/ts_iterator_v2_impl.cpp:3536-3540 | a scan that reads nothing keeps the window if and only if it is empty |
| OffsetScan.WideLimit | kwdbts2/ts_engine/ts_iterator_v2_impl.cpp:3517-3527 | every query with a small offset whose limit takes the sum beyond 2^32 loses rows of the window, if its rows are apart and twice as many as the wrapped sum |
| OffsetScan.WideLimitInput | kwdbts2/ts_engine/ts_iterator_v2_impl.cpp:3517-3527 | offset 5, limit 2^32 - 1 and ten rows are such a query |
| OffsetScan.DenseRows | kwdbts2/ts_engine/ts_iterator_v2_impl.cpp:3498-3510 | more rows than the offset at one moment make the next partition's rows be dropped from the window |
| BlockFilter.CmpOrder | kwdbts2/engine/iterator.cpp:41-89 | the comparison of values is a total preorder, byte strings included |
| BlockFilter.CmpMeans | kwdbts2/engine/iterator.cpp:41-89 | the comparison is negative, zero or positive as the first value is below, equal to or above the second: numbers by size, byte strings by their first difference and then by length |
| BlockFilter.MatchesFilterRange | kwdbts2/engine/iterator.cpp:35-106 | true exactly when some span reaches into the interval |
| BlockFilter.ColumnStats | kwdbts2/ts_engine/ts_iterator_v2_impl.cpp:218-260 | one pass gives the exact count of values and extremes that are attained, in the order of CmpMeans |
| BlockFilter.RulesOutByStats | kwdbts2/ts_engine/ts_iterator_v2_impl.cpp:310-530 | the decision from statistics, stored with the block or gathered in one pass, is exactly a statement about all values of the column |
| BlockFilter.IsBlockFiltered | kwdbts2/ts_engine/ts_iterator_v2_impl.cpp:310-530 | a block is filtered exactly when some filter rules it out |
| BlockFilter.RulesOutIntegers | kwdbts2/ts_engine/ts_iterator_v2_impl.cpp:310-530 | for an integer column, in plain inequalities: a filter on spans rules out a block exactly when it lacks the column, or has a value and, for each span, all its values lie before it or all behind it |
| BlockFilter.RulesOutNulls | kwdbts2/ts_engine/ts_iterator_v2_impl.cpp:310-530 | a filter for nulls rules out a block exactly when every row has the column, one for values exactly when none has |
| BlockFilter.FitsInteger | kwdbts2/ts_engine/ts_iterator_v2_impl.cpp:310-530 | an integer fits a filter exactly when it is neither before nor behind some span |
| BlockFilter.RuledOutFitsNothing | kwdbts2/ts_engine/ts_iterator_v2_impl.cpp:310-530 | no column value of a block that is ruled out fits the filter |
| BlockPrune.GroupIntervals | kwdbts2/ts_engine/ts_iterator_v2_impl.cpp:601-615 | sorted intervals become groups with disjoint time ranges that hold every block once |
| BlockPrune.SurvivorsAt | kwdbts2/ts_engine/ts_iterator_v2_impl.cpp:618-635 | at every timestamp all rows survive, or all came from one block that is ruled out |
| BlockPrune.SurvivorsExactly | kwdbts2/ts_engine/ts_iterator_v2_impl.cpp:601-635 | a block of the groups goes exactly when a filter rules it out and no other block meets its interval |
| BlockPrune.OverlapsIff | kwdbts2/ts_engine/ts_iterator_v2_impl.cpp:587-593 | an interval overlaps the spans exactly when some timestamp lies in it and in one of them |
| BlockPrune.PruneBlocks | kwdbts2/ts_engine/ts_iterator_v2_impl.cpp:547-635 | unless sampling stops it, the blocks that stay are exactly the ones in the query times that no filter rules out or that meet another one; so no block is doubled, and at every timestamp all rows stay or all came from one block ruled out |
| BlockPrune.PruningCommutes | kwdbts2/ts_engine/ts_iterator_v2_impl.cpp:547-635 | for every rule that merges rows of one timestamp, the merged rows satisfying the filters are the same with and without pruning |
| BlockPrune.SortAndMergeSpan | kwdbts2/ts_engine/ts_iterator_v2_impl.cpp:119-138 | merged spans are separate and cover the same timestamps |
| Aggregate.CalcAggForFlush | kwdbts2/ts_engine/ts_agg.cpp:28-138 | count, extremes and sum of a column; the overflow flag is set exactly when a partial sum leaves 64 bits, and an unflagged sum is exact |
| Aggregate.OverflowsIsLarge | kwdbts2/ts_engine/ts_agg.cpp:28-138 | a stored sum is flagged only if the absolute values add up to at least 2^63 |
| Aggregate.FlushBlock | kwdbts2/ts_engine/ts_entity_segment_builder.cpp:329-376 | the aggregates stored with a block are those of its rows, so the block is one that queries may trust |
| Aggregate.FeedStored | kwdbts2/ts_engine/ts_iterator_v2_impl.cpp:2701-2738 | stored aggregates stand for the rows of the block; an unflagged sum is exact, and it is flagged exactly when it leaves 64 bits after some part fed, or a part is flagged itself |
| Aggregate.FeedColumn | kwdbts2/ts_engine/ts_iterator_v2_impl.cpp:2892-3245 | one block adds its values to the running aggregates, by stored aggregates or row by row, with the same exact flag |
| AggregateWalk.FoundFirst | kwdbts2/ts_engine/ts_iterator_v2_impl.cpp:2816-2848 | a first value found walking forwards is the first of all |
| AggregateWalk.FoundLast | kwdbts2/ts_engine/ts_iterator_v2_impl.cpp:2851-2889 | a last value taken walking backwards is the last of all within its bound |
| AggregateWalk.Walker.UpdateFirst | kwdbts2/ts_engine/ts_iterator_v2_impl.cpp:2816-2848 | open FIRST columns are those without a value in the blocks seen; the others are settled |
| AggregateWalk.Walker.UpdateLast | kwdbts2/ts_engine/ts_iterator_v2_impl.cpp:2851-2889 | open LAST columns hold the best row of the blocks seen; closed ones are settled |
| AggregateWalk.Walker.UpdatePartition | kwdbts2/ts_engine/ts_iterator_v2_impl.cpp:2566-2620 | every block of a partition is fed once, from both ends |
| AggregateWalk.Walker.AggregateWithoutBucket | kwdbts2/ts_engine/ts_iterator_v2_impl.cpp:2017-2087 | FIRST, LAST, count, max and min are those of a scan of all rows; so is the sum unless it is flagged, which is exactly when it leaves 64 bits along the order in which the blocks were fed, and needs absolute values of at least 2^63 in all |
| LruBlockCache.Fitting | kwdbts2/ts_engine/ts_lru_block_cache.cpp:53-83 | the longest prefix of the recency order whose memory fits the limit |
| LruBlockCache.Cache.Add | kwdbts2/ts_engine/ts_lru_block_cache.cpp:32-51 | a fresh block goes to the front; the list stays well linked |
| LruBlockCache.Cache.Splice | kwdbts2/ts_engine/ts_lru_block_cache.cpp:98-123 | moving links one by one takes a block to the front of a well-linked list |
| LruBlockCache.Cache.Access | kwdbts2/ts_engine/ts_lru_block_cache.cpp:98-123 | a listed block becomes the most recent, a block no longer listed changes nothing |
| LruBlockCache.Cache.KickOffBlocks | kwdbts2/ts_engine/ts_lru_block_cache.cpp:53-83 | eviction leaves exactly the longest recency prefix that fits |
| LruBlockCache.Cache.AddMemory | kwdbts2/ts_engine/ts_lru_block_cache.cpp:85-96 | growing a listed block is accounted for and evicts down to the limit; a block no longer listed only grows |
| LruBlockCache.Cache.SetMaxMemorySize | kwdbts2/ts_engine/ts_lru_block_cache.cpp:125-130 | a new limit evicts down to the longest prefix that fits it |
| LruBlockCache.Cache.EvictAll | kwdbts2/ts_engine/ts_lru_block_cache.cpp:136-152 | empties the list and the account |
| LruBlockCache.UniqueFit | kwdbts2/ts_engine/ts_lru_block_cache.cpp:53-83 | a prefix that fits while every longer one does not is the longest one |
| SnapshotWire.UnpackPacked | kwdbts2/ts_engine/ts_table_del_info.cpp:499-566 | a packed batch unpacks to itself |
| SnapshotWire.UnpackFormat | kwdbts2/ts_engine/ts_table_del_info.cpp:528-566 | what a batch of each format unpacks to: formats 1 and 2 as packed, format 0 as rows from the place of the number on, no other |
| SnapshotWire.OldPackages | kwdbts2/ts_engine/ts_table_del_info.cpp:607-646 | a package of format 1 is its only batch; one of format 0 is taken for a package without batches |
| SnapshotWire.PackageBack | kwdbts2/ts_engine/ts_table_del_info.cpp:576-646 | a package parses into its batches, whatever its reserved bytes hold |
| Snapshot.Sender.NextBatchData | kwdbts2/ts_engine/ts_engine.cpp:2425-2508 | a package takes the next items in order, under the next number and for the sender's table and version, and is empty only at the end |
| Snapshot.Receiver.WriteBatchData | kwdbts2/ts_engine/ts_engine.cpp:2510-2588 | the next package is applied as a whole, its rows to the table and version it names; an old one is ignored, an early one refused |
| Snapshot.Run | kwdbts2/ts_engine/ts_engine.cpp:2425-2588 | over every interleaving the receiver has applied a prefix of the sender's items, each once, to the sender's table and version, with their rows counted; at the end, all of them |

## Left out

- Raft readers other than `Get` on a span: they read the head or the tail of a list; RaftPromise.RunReadsValues says which bytes lie at the offset found, and reading them is file I/O.
- Raft compaction, file naming and the sweep of the directory at start: the id chosen for a compacted file can equal an existing one, so its freshness would have to be assumed.
- Raft value contents: a record's payload is bytes of the stated length; its compression is not modelled.
- RaftStore.Index.WriteRaftLog: a write that fails or is cut short is not modelled.
- RaftFile.TornTail: the condition is about the records replayed; a load that goes on behind an unseen torn record may still end in the same index by chance. At least 25 bytes behind the buffer can be read, and file lengths stay 25 below 2^64.
- RaftFile.AppendAfterRecovery: one direction; a cut inside a record may go unnoticed by chance, when the bytes repeat.
- RaftRecovery.LoadFile: the loop is given up after as many rounds as the buffer has bytes, where NeverEnds applies; the source goes on.
- RaftStore.Index.Reload: whole records; RaftRecovery.Recover starts from the bytes.
- RaftReplay.RunIff: indexes and offsets do not wrap at 2^64; index 0 is the status entry, as in the source.
- RaftReplay.RunContiguous: span deletes that cut a hole into a list are excluded by their exact condition, RaftIndex.DeleteKeepsContiguousIff.
- Simple8BV2.Decompress: a truncated varint in the header, and a buffer too short for the first value of a 1- or 2-byte type, are failures here; the source goes on through a null cursor, or reads past the buffer.
- Simple8BV1.Decompress1: words that would write past the output are excluded, as the source does not check for them; VisitsAll shows that encoder output never does so.
- Chimp.Decompress: a center length that leaves no room for the lead makes the source shift by a negative amount; the model fails there.
- Bit writers and readers: streams are bit sequences, so the padding of the last byte is not modelled; decoding is proved with any bits behind the stream.
- Floating-point sums, and what a flagged integer sum is as a double.
- DelRange.MergeRangeCross: deletes with begin above end are not described; a point with OSN 0 or the maximal OSN may survive through the clamped extremes, which the contract states exactly.
- DelRange.ScanFilter: the final sort of the ranges is left out, as no contract depends on their order.
- SegmentScan.ScanPartition: points with OSN 0 and the maximal OSN are left out, as a real OSN is never either; memory segments are left out.
- EntityTable.TableBuilder.UpdateEntityItem: a key whose table differs from the item's is excluded; the source asserts there that the block has a source.
- EntityTable.BatchBuilder.WriteBatch: the decoding of the block header is left out; its fields are parameters.
- SegmentMerge.NormalFlush: file sizes are those recorded in the segment's metadata, and item ids and offsets do not wrap.
- FlushScan.FlushThenScan: an entity whose table differs between memory and disk is excluded by the exact condition, FlushScan.FlushFindsIff.
- OffsetFilter.OffsetIterator.FilterPartition: fewer than 2^31 rows in all, so that the row counters do not wrap; a signed sum of offset and limit that overflows is taken to wrap.
- OffsetFilter.OffsetIterator.FilterLower: timestamps are unbounded integers, and a partition's rows lie within its start and end.
- OffsetScan.Scan: one direction; a query beyond its bounds may still keep its window, when it has few rows. The time bound that Next can be given is left out.
- BlockFilter.MatchesFilterRange: FLOAT columns, which are compared with a tolerance, are left out.
- BlockFilter.CmpOrder: DOUBLE values are real numbers, so NaN, which compares as equal to everything in the source, and the infinities are left out.
- BlockPrune.PruneBlocks: the scan that delivers the blocks is SegmentScan; the sampling ratio is a count here.
- BlockPrune.SortAndMergeSpan: the sort is an insertion sort by begin and end; the source's order among equal begins is unspecified.
- Aggregate.CalcAggForFlush: integer columns only; string columns have only count and extremes.
- AggregateWalk.Walker.AggregateWithoutBucket: FIRST_ROW and LAST_ROW candidates are left out, though they steer the walk; time buckets, MAX_EXTEND, MIN_EXTEND and duplicate output columns are left out.
- The iterator that merges rows of equal timestamps: BlockPrune takes it as any rule, AggregateWalk takes its sorted output.
- LruBlockCache: hit counters and use counts are left out, and memory sizes do not wrap.
- Snapshot.Run: fewer than 2^32 - 1 steps, items that fit the length fields, and no write errors.
- Snapshot.Receiver.WriteBatchData: what the delete and tag bytes mean to the receiver is left out; they are passed on as they are.
- SnapshotWire.PackageBack: in the oldest batch format the delete part is empty here, while the source keeps the one of the batch before; bytes missing at the end of a package are a failure here and a read past the buffer in the source.
- snappy, LZ4, ZSTD and zlib, bit packing, bloom filters, arenas and column blocks.
- WAL, DDL, schema managers, payload and tag handling, type conversion.
- Threads and latches: each locked section is one step.
