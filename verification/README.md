# Verified models of Rucene's algorithmic core

Rucene is a search library in Rust, a port of Lucene. This project models the parts of it whose
correctness is a statement about whole runs, and proves those statements in Dafny 4.11:

* **the LZ4 block codec** (`Lz4Format`, `Lz4Greedy`, `Lz4`): what is compressed, with any hash function and
  any earlier contents of the hash table, is restored by decompression, and the matches taken are those of
  a greedy run that is defined over positions, without a table;
* **the ordinal merge** (`BinaryHeap`, `MultiTerms`, `OrdinalMap`): a heap merge of sorted term
  streams that numbers their terms globally, in whichever of three forms the numbers are stored;
* **sorting and selection** (`Sorter`, `IntroSorter`, `RadixSorter`, `LsbRadixSorter`, `Selector`,
  `DocValuesUpdates`): permutation, order, stability and termination of the in-place sorts, and the
  doc-values updates that are read back through one of them;
* **indexing memory** (`ByteBlockPool`, `Slices`, `SliceStreams`, `BytesRefHash`, `SortedSet`): a paged
  allocator with forwarding addresses, an open-addressing table that behaves as a map from byte strings
  to dense ids, and the doc-values writer that is built on it;
* **doc-id sets** (`FixedBitSet`, `DocIdSets`, `SparseBits`, `DisiQueue`): fast representations that
  agree with a mathematical set, and the queue of iterators over them;
* **smaller pieces** (`TermsMax`, `Gcd`, `LeafSlices`).

`BitMath`, `Sequences`, `Lex` and `Wrappers` hold arithmetic, facts about sequences, the order of byte
strings and the option type.

Code that works by changing things is modelled by methods with loops, on arrays or on classes whose
fields they update; each is proved against a predicate or a function that says what it is for. Sorting is
stated with a ghost function `rank` that numbers the elements in their order, and a ghost set `dom` of
the elements that may occur; callers supply both.

## What the code does not do

Where a natural property is false of the code, the model keeps the code as it is, a member shows an input, and
a contract says exactly when the property holds.

* `Terms::max` ends exactly if the greatest term has no byte 0xFF (`TermsMax.SearchEnds`): 255 is never
  tried as a digit, so the search falls behind such a term and goes on for ever.
* `SortedSetDocValuesWriter::add_value` accepts values of up to 32766 bytes, as its message says, but one of
  exactly 32766 bytes always stops at an assertion in `BytesRefHash::add` (`SortedSet.SortedSetWriter.AddValue`).
* The flush of a sorted-set field for a sorted index does not sort the ordinals of a document. They ascend
  exactly if the document's values were first added to the field in increasing order
  (`SortedSet.RemappedOrder`, with an example in `SortedSet.SortedFlushDescends`).
* `FixedBitSet::ensure_capacity` gives no room if the words that are needed are fewer than the ones in a larger
  backing store (`FixedBitSet.FixedBitSet.EnsureCapacity`, `FixedBitSet.LargerStoreNotUsed`).
* `FixedBitSet::set_or` compares the numbers of words and not of bits. The union is a set of the own size exactly
  if the other members are below the own number of bits (`FixedBitSet.FixedBitSet.SetOr`); a set of 70 bits takes
  bit 99 from one of 100 bits (`FixedBitSet.BeyondTheBits`).
* `BytesRefHash::reinit` after `close` fills the new table with the id 0 in place of the mark of an open slot. The
  table is usable exactly if it was not closed; otherwise every search stops at its first slot, because the id there
  has no string (`BytesRefHash.BytesRefHash.Reinit`, `BytesRefHash.BytesRefHash.CloseAndReinit`).
* The iterator over numeric updates tests for its end one step late: after the last document it returns the slot
  behind the updates, or reads outside a store that is full. It ends cleanly exactly if there is such a slot and it
  holds the document `NO_MORE_DOCS` (`DocValuesUpdates.CleanEnd`); one update in a store of two slots is followed by
  document 0 with value 0 (`DocValuesUpdates.FreeSlotReturned`). A store that is filled by `add` and `merge` never
  ends cleanly (`DocValuesUpdates.FieldUpdates.ReadBack`).
* `ShortArrayDocIterator::advance` cuts its target to 16 bits. For a larger target it is right exactly if no member is
  left from the cut target on (`DocIdSets.ShortArrayDocIterator.Advance`); the set of 5 advanced to 65541 gives 5
  (`DocIdSets.CutTarget`). `NotDocIterator` over it is right all the same, with its debug assertion left out.
* `MultiTermIterator::next` after an exact seek goes on from the current term, and to the second term of all if
  there is none (`MultiTerms.MultiTermIterator.Next`): on a new iterator over "a" and "b" an exact seek that fails is
  followed by "b" (`MultiTerms.FirstTermPassed`). A debug build stops at an assertion there.
* `DefaultIndexSearcher::slice` says that it orders leaves by falling size; the code orders them by rising size
  (`LeafSlices.Slice` states the order of the slices). A slice is empty exactly if the segment limit is 0 and some
  leaf is below the document limit, as in `LeafSlices.NoSegments`; the constants of its only caller exclude that
  (`LeafSlices.SearchSlices`).

## Model

| member | source | states |
|---|---|---|
| Lz4Format.CopyWithinIsCopyMatch | src/core/util/compression.rs:142-150 | copying a match byte by byte inside the buffer, overlapping or not, appends the bytes that the format defines for it |
| Lz4Format.CopyWithinDisjoint | src/core/util/compression.rs:151-158 | for a match that does not overlap itself the byte-wise copy and the block copy are the same |
| Lz4Format.EncodeLenBytes | src/core/util/compression.rs:166-173 | a length takes a byte 255 for every 255 in it, and one byte for the rest |
| Lz4Format.SequenceLayout | src/core/util/compression.rs:203-231 | a sequence byte by byte: both nibbles of the token, the rest of the number of literals, the literals, the distance with its low byte first, the rest of the length |
| Lz4Format.ReadEncodedLen | src/core/util/compression.rs:166-173 | a length written in 255s is read back as that length, and nothing after it is consumed |
| Lz4Format.ReadLenFails | src/core/util/compression.rs:95-164 | an extended length cannot be read exactly if all bytes left are 255 |
| Lz4Format.Refused | src/core/util/compression.rs:95-164 | which input, buffer and distance make the decoding of a short sequence fail, and how |
| Lz4Format.BlockRoundTrip | src/core/util/compression.rs:95-164 | decoding a well-formed block for `data`, followed by anything, succeeds at a position between the number of bytes asked for and the length of `data`, and the bytes up to there are those of `data` |
| Lz4Format.DecodeEncoded | src/core/util/compression.rs:95-164 | the same for every tail of a block, decoded behind what was decoded before |
| Lz4.HashTable.Reset | src/core/util/compression.rs:308-325 | whatever the table held, it is all zero and wide enough for every offset; the hash gets as many bits as 16384 bytes of table allow; an old table serves again exactly if it has enough slots of enough bits |
| Lz4.Hash | src/core/util/compression.rs:49-52 | the hash of any 32-bit number fits in the given number of bits |
| Lz4.HashIsGolden | src/core/util/compression.rs:49-52 | the hash is the top of the 32-bit product with 2654435761 |
| Lz4.HashIsHash | src/core/util/compression.rs:49-52 | the code's own hash is one for which compression is proved |
| Lz4.ReadIntInjective | src/core/util/compression.rs:58-68 | equal four-byte numbers mean equal bytes, so a match found by number is a match of bytes |
| Lz4.ReachesByNumber | src/core/util/compression.rs:58-68 | comparing numbers and distances, as the code does, finds exactly the earlier positions in reach with the same four bytes |
| Lz4.CommonBytes | src/core/util/compression.rs:70-78 | the common length is the longest one before the limit |
| Lz4.WriteSequence | src/core/util/compression.rs:203-231 | appends the token, the literals, the distance and the lengths of one sequence in the block format |
| Lz4.WriteLastLiterals | src/core/util/compression.rs:193-201 | appends the final literals in the block format |
| Lz4.FindMatch | src/core/util/compression.rs:254-269 | the match reported is at the first position whose last earlier one with the same hash is less than 65536 back and holds the same four bytes, and refers to that one; none is reported exactly if there is no such position before the last nine bytes; every slot has the last position of its hash |
| Lz4.EmitMatch | src/core/util/compression.rs:271-282 | a match is extended as far as it goes before the limit; what is written still stands for a prefix of the input |
| Lz4.WriteMatches | src/core/util/compression.rs:246-284 | the sequences written are those of the greedy run and tile the input up to the anchor, and at least five bytes are left |
| Lz4.Compress | src/core/util/compression.rs:233-290 | the output is a well-formed block for exactly the input slice, and ends in at least five literals or is all literals; its matches are those of the greedy run, so no literal stands where the greedy search finds a match |
| Lz4Greedy.GreedyPush | src/core/util/compression.rs:254-282 | a longest match with the last position of its hash goes on a greedy run |
| Lz4Greedy.GreedyUnique | src/core/util/compression.rs:246-284 | the bytes and the hash determine the greedy run |
| Lz4.CompressTwice | src/core/util/compression.rs:233-290 | the block does not depend on the table that is used |
| Lz4.Decompress | src/core/util/compression.rs:95-164 | for every input the loop over the buffer gives the result of the decoding function, failures included |
| Lz4.RoundTrip | src/core/util/compression.rs:95-290 | compressing and then asking for n bytes restores p bytes with n <= p <= length |
| Lz4.DecompressRange | src/core/util/compression.rs:507-532 | the range of a decompressed block that a caller asks for, and when the call fails |
| Lz4.RangeRestored | src/core/util/compression.rs:507-532 | on a stream that begins with a block the range holds the bytes of the original at the same offsets |
| BinaryHeap.RootIsLeast | src/core/util/external/binary_heap.rs:90-92 | the root of a heap has the least key |
| BinaryHeap.SiftUp | src/core/util/external/binary_heap.rs:149-165 | restores the heap order after an entry was put at the bottom, and permutes |
| BinaryHeap.SiftDown | src/core/util/external/binary_heap.rs:167-190 | restores the heap order after the key of the root has changed, and leaves a heap that is in order alone |
| BinaryHeap.Push | src/core/util/external/binary_heap.rs:131-135 | adds one entry and keeps the order |
| BinaryHeap.Pop | src/core/util/external/binary_heap.rs:121-129 | takes out the root, keeps all other entries and the order |
| MultiTerms.AllTiedVisited | src/core/codec/multi_terms.rs:554-567 | heap nodes with the least key form a tree that hangs on the root, so the walk from the root meets all of them |
| MultiTerms.FillTop | src/core/codec/multi_terms.rs:542-568 | the walk returns exactly the entries with the least key, each once |
| MultiTerms.MultiTermIterator.constructor | src/core/codec/multi_terms.rs:222-248 | exactly the subs that have terms are queued, in heap order |
| MultiTerms.MultiTermIterator.PushTop | src/core/codec/multi_terms.rs:260-280 | every sub on the current term moves on by one, no other sub moves, and exhausted subs leave the queue |
| MultiTerms.MultiTermIterator.PullTop | src/core/codec/multi_terms.rs:250-258 | the current term is the least that any sub stands on, and the tops are exactly the subs that stand on it |
| MultiTerms.MultiTermIterator.Next | src/core/codec/multi_terms.rs:286-317 | one merge step: tops advance, the least head becomes current, none is left exactly if all subs are exhausted; after an exact seek every sub is past the current term, or past the least of all if there is none |
| MultiTerms.SeekSub | src/core/codec/multi_terms.rs:394-414 | a sub ends at its first term not below the text, also when an earlier seek makes the seek unnecessary |
| MultiTerms.MultiTermIterator.SeekCeil | src/core/codec/multi_terms.rs:376-462 | every sub stands on its first term at or after the text; the status, the current term and the tops follow from the least of these |
| MultiTerms.SeekExactSub | src/core/codec/multi_terms.rs:335-355 | a sub finds the term exactly if it has it, also when an earlier seek makes the seek unnecessary |
| MultiTerms.MultiTermIterator.SeekExact | src/core/codec/multi_terms.rs:319-374 | found exactly if some sub has the term; the tops are exactly the subs that have it, wherever the others are left |
| MultiTerms.LeastAbove | src/core/codec/multi_terms.rs:286-317 | once all subs are past a term, the least head is the least term above it |
| MultiTerms.NextAfterExact | src/core/codec/multi_terms.rs:286-374 | after an exact seek that found its term, `next` gives the least term above it, and none exactly if there is none |
| MultiTerms.FirstTermPassed | src/core/codec/multi_terms.rs:286-374 | after one that fails on a new iterator it gives the second term |
| BitMath.BitOr | src/core/codec/doc_values/doc_values_consumer.rs:1693-1697 | the or of two deltas is zero only if both are, negative exactly if one is, and otherwise not below either, so its width is enough for both |
| OrdinalMap.StoredExactly | src/core/codec/doc_values/doc_values_consumer.rs:1824-1832 | a delta stored in as many bits as the or of all deltas needs is read back unchanged |
| OrdinalMap.StoredCut | src/core/codec/doc_values/doc_values_consumer.rs:1824-1832 | with fewer than 64 bits it is exactly if the number has no more bits than that |
| OrdinalMap.MergeStep | src/core/codec/doc_values/doc_values_consumer.rs:1676-1707 | after each step the terms merged so far are the distinct terms before every sub's position, in increasing order |
| OrdinalMap.Record | src/core/codec/doc_values/doc_values_consumer.rs:1678-1703 | one global ordinal: the delta of every sub on the term, and the first of these subs |
| OrdinalMap.MergeAll | src/core/codec/doc_values/doc_values_consumer.rs:1673-1707 | a whole run ends with all subs exhausted, every term numbered, and every delta right |
| OrdinalMap.Store | src/core/codec/doc_values/doc_values_consumer.rs:1712-1753 | the identity, packed or monotonic form reads back every delta that was collected; it is the identity exactly if all deltas are zero, and packed slots are no wider than the or of the deltas needs |
| OrdinalMap.MapByWeight | src/core/codec/doc_values/doc_values_consumer.rs:1807-1812 | a permutation of the segments, heaviest first and ties in their old order |
| Sequences.Inverse | src/core/codec/doc_values/doc_values_consumer.rs:1814-1821 | the two directions of the segment map undo each other |
| OrdinalMap.LeadBack | src/core/codec/doc_values/doc_values_consumer.rs:1768-1775 | the first segment and its ordinal of a global ordinal lead to an entry with that term, and no heavier segment has it |
| OrdinalMap.Build | src/core/codec/doc_values/doc_values_consumer.rs:1638-1762 | for sorted segments, gaps allowed: global ordinals number the distinct terms in increasing order, every live segment ordinal maps to the global ordinal of its term, and every global ordinal leads back, whichever storage is chosen |
| OrdinalMap.TermsUnique | src/core/codec/doc_values/doc_values_consumer.rs:1676-1707 | the global numbering is determined by the segments |
| Sorter.BinarySort | src/core/util/sorter.rs:264-288 | sorts in place and keeps the order of ties |
| Sorter.ThreeReversals | src/core/util/sorter.rs:243-262 | reversing two neighbours and then both exchanges them |
| Sorter.Rotate | src/core/util/sorter.rs:243-262 | exchanges two neighbouring blocks, each in its own order |
| Sorter.RotatedStable | src/core/util/sorter.rs:243-262 | a rotation is stable if the exchanged blocks have no ties |
| Sorter.Lower | src/core/util/sorter.rs:168-182 | the first place in a sorted range that is not below the given element |
| Sorter.Upper | src/core/util/sorter.rs:184-199 | the first place in a sorted range that is above the given element |
| Sorter.Trim | src/core/util/sorter.rs:136-144 | elements that are already in place at either end can be left out of a merge |
| Sorter.CutAndRotate | src/core/util/sorter.rs:146-163 | cuts both runs at one element and exchanges the inner parts, so that two smaller merges are left |
| Sorter.MergeInPlace | src/core/util/sorter.rs:128-166 | two sorted neighbours become one sorted range without another array, ties in order; it ends also when trimming leaves two elements |
| Sorter.MergeSort | src/core/codec/doc_values/doc_values_writer.rs:1828-1837 | a sorted and stable permutation that touches only the range |
| IntroSorter.RootIsGreatest | src/core/util/sorter.rs:304-332 | the first element of a heap range is the greatest |
| IntroSorter.HeapSort | src/core/util/sorter.rs:290-302 | sorts the range and permutes only there |
| IntroSorter.Partition | src/core/util/sorter.rs:356-375 | nothing in front of the cut is above the pivot and nothing behind it below; the scan without a bound stays in the range |
| IntroSorter.QuickSort | src/core/util/sorter.rs:334-379 | sorts the range whatever the depth left, through insertion sort, heap sort or partitioning, and ends |
| RadixSorter.SuffixLess | src/core/util/bytes_ref_hash.rs:421-432 | strings that agree on their first bytes compare as the rest of them does |
| RadixSorter.CommonPrefixOrHistogram | src/core/util/sorter.rs:613-661 | a common prefix that all strings share, or the exact counts of the next bytes |
| RadixSorter.SumHistogram | src/core/util/sorter.rs:670-678 | counts become the bounds of the buckets |
| RadixSorter.Reorder | src/core/util/sorter.rs:680-692 | the exchange cycles end with every element in the bucket of its byte, and permute |
| RadixSorter.BucketsAscend | src/core/util/sorter.rs:546-585 | strings in an earlier bucket come before those in a later one |
| RadixSorter.SortInner | src/core/util/sorter.rs:535-544 | sorts any range of ids by their strings, through skipped prefixes, buckets and the fallback sorter, and ends |
| RadixSorter.RadixSort | src/core/util/sorter.rs:546-585 | the same for the radix step |
| RadixSorter.Log2 | src/core/util/math.rs:21-32 | the exponent of the greatest power of two not above the argument |
| LsbRadixSorter.LowSplit | src/core/util/sorter.rs:28-50 | the low bits up to the next byte are ordered by that byte and then by the bits below |
| LsbRadixSorter.BuildHistogram | src/core/util/sorter.rs:28-33 | counts every digit |
| LsbRadixSorter.SumHistogram | src/core/util/sorter.rs:35-42 | where the elements of every digit begin |
| LsbRadixSorter.Reorder | src/core/util/sorter.rs:44-50 | moves the elements digit by digit, each in their old order |
| LsbRadixSorter.BucketsOrdered | src/core/util/sorter.rs:44-50 | a pass over numbers in order of their low bits orders them by one more byte |
| LsbRadixSorter.SortHistogram | src/core/util/sorter.rs:52-70 | a pass that is skipped would not have moved anything |
| LsbRadixSorter.Sort | src/core/util/sorter.rs:72-110 | sorts the front of the array and leaves the rest, for numbers of the given number of bits |
| Selector.Partition | src/core/util/selector.rs:60-81 | the pivot stands where it belongs; the scan without a bound stops at the pivot at the latest |
| Selector.QuickSelect | src/core/util/selector.rs:35-90 | nothing before k is above element k, nothing behind it is below; only the range is permuted, and it ends |
| DocValuesUpdates.LatestWins | src/core/codec/doc_values/doc_values_writer.rs:1777-1794 | after a stable sort the last update of a document is the one that was added last |
| DocValuesUpdates.AppliedStable | src/core/codec/doc_values/doc_values_writer.rs:1828-1864 | a stable sort by document keeps what the updates mean, made one after the other |
| DocValuesUpdates.SortUpdates | src/core/codec/doc_values/doc_values_writer.rs:1828-1864 | the updates at the front of a store sorted by document, with the last one added at the end of each document's run, the same meaning, and nothing behind them touched |
| DocValuesUpdates.KeptEnumerates | src/core/codec/doc_values/doc_values_writer.rs:1777-1794 | the last entries of the runs of sorted updates are exactly the updated documents with their last values, in rising order |
| DocValuesUpdates.UpdatesIterator.NextDoc | src/core/codec/doc_values/doc_values_writer.rs:1777-1794 | each document once with its last update; then the slot behind the updates or a read outside the store; then the end |
| DocValuesUpdates.ReadAll | src/core/codec/doc_values/doc_values_writer.rs:1777-1794 | every read of a whole run, for any number of calls: all documents with their last values, one slot more, the end for ever, or reads outside the store |
| DocValuesUpdates.CleanEnd | src/core/codec/doc_values/doc_values_writer.rs:1777-1794 | the end follows the last document exactly if the slot behind the updates is there and holds `NO_MORE_DOCS` |
| DocValuesUpdates.FreeSlotReturned | src/core/codec/doc_values/doc_values_writer.rs:1777-1794 | an update followed by document 0 with value 0 |
| DocValuesUpdates.FieldUpdates.Grow | src/core/util/packed/paged_mutable.rs:149-156 | room for the updates and an eighth more, at least three; the old updates, and zeros behind them |
| DocValuesUpdates.FieldUpdates.Add | src/core/codec/doc_values/doc_values_writer.rs:1904-1928 | the document has the value from then on, no other changes; refused exactly at 2^31 - 1 updates |
| DocValuesUpdates.FieldUpdates.Merge | src/core/codec/doc_values/doc_values_writer.rs:1941-1962 | the other updates count as made later; refused exactly if both together are too many |
| DocValuesUpdates.FieldUpdates.Iterator | src/core/codec/doc_values/doc_values_writer.rs:1930-1935 | a fresh iterator over sorted updates that mean the same |
| DocValuesUpdates.FieldUpdates.ReadBack | src/core/codec/doc_values/doc_values_writer.rs:1777-1962 | however updates were added and merged, every updated document is read once, in order, with its last value, and then document 0 or nothing that is in the store: never the end |
| ByteBlockPool.ReadEncoded | src/core/util/byte_block_pool.rs:205-222 | a string stored with its length in one or two bytes is read back |
| ByteBlockPool.ReadInside | src/core/util/byte_block_pool.rs:205-222 | a string is read exactly if its length bytes and its bytes are inside of the block |
| ByteBlockPool.StoredLength | src/core/util/bytes_ref_hash.rs:203-217 | the length in one byte below 128, otherwise its low seven bits with a mark and then the others |
| ByteBlockPool.StoresKept | src/core/util/bytes_ref_hash.rs:194-217 | a stored string stays readable while only bytes beyond it are written |
| ByteBlockPool.ByteBlockPool.NextBuffer | src/core/util/byte_block_pool.rs:145-156 | a block of zeros behind the memory in use |
| ByteBlockPool.ByteBlockPool.Reset | src/core/util/byte_block_pool.rs:97-134 | for both flags: the buffers released are empty, the first one is kept and zeroed as far as it was used if that is asked for, and the pool is empty or starts at its first buffer |
| ByteBlockPool.ByteBlockPool.WriteTerm | src/core/util/bytes_ref_hash.rs:199-217 | stores a string at the head and changes only bytes behind the old end |
| ByteBlockPool.ByteBlockPool.NewSlice | src/core/util/byte_block_pool.rs:159-167 | the slice lies at the head of the pool, or in a new buffer if it does not fit; it is zero but for the mark of the first level |
| ByteBlockPool.ByteBlockPool.AllocSlice | src/core/util/byte_block_pool.rs:171-201 | the three bytes before the mark move to a slice of the next level, at the head of the pool or in a new buffer if it does not fit; its address is in their place and its own mark at its end |
| ByteBlockPool.FlatSet | src/core/util/byte_block_pool.rs:60-63 | buffers and offsets address one flat memory |
| Slices.AddressRoundTrip | src/core/util/byte_slice_reader.rs:92-98 | a forwarding address of 32 bits is read as it was written |
| Slices.AddressOrder | src/core/util/byte_block_pool.rs:186-199 | the most significant byte of an address comes first |
| Slices.HoldsKept | src/core/util/byte_block_pool.rs:171-201 | a stream does not notice writes outside its own slices |
| Slices.BytePut | src/core/codec/postings/terms_hash_per_field.rs:187-188 | a byte written over the zero at the cursor extends the stream by it |
| Slices.Allocated | src/core/util/byte_block_pool.rs:171-201 | a new slice leaves the content of the stream as it is and is linked behind the last one |
| Slices.Ascend | src/core/util/byte_block_pool.rs:171-201 | along a chain the addresses strictly increase |
| Slices.ChainLevel | src/core/util/byte_block_pool.rs:73-76 | slice p of a chain has level p, at most 9, and is 5, 14, 20, 30, 40, 40, 80, 80, 120 or 120 bytes long |
| Slices.SliceCount | src/core/util/byte_block_pool.rs:171-201 | the number of slices of a stream follows from its length |
| Slices.PoolUse | src/core/util/byte_block_pool.rs:171-201 | a stream of n bytes takes at most 2n + 9 bytes of the pool |
| SliceStreams.WorldStep | src/core/codec/postings/terms_hash_per_field.rs:169-190 | a step of one stream keeps all streams in order and apart, and leaves the others' contents alone |
| SliceStreams.SliceWriter.NewTerm | src/core/codec/postings/terms_hash_per_field.rs:126-159 | consecutive empty streams at the head of the pool, or in a new buffer if twice their slices do not fit |
| SliceStreams.SliceWriter.WriteByte | src/core/codec/postings/terms_hash_per_field.rs:169-190 | appends one byte to one stream; no other stream changes and none moves |
| SliceStreams.SliceWriter.Intern | src/core/util/bytes_ref_hash.rs:180-217 | a string is stored at the head of the pool, or in a new buffer if it does not fit, and leaves the streams alone |
| SliceStreams.FinalTest | src/core/util/byte_slice_reader.rs:105-113 | the reader's test for the last slice holds for the last slice and for no other |
| SliceStreams.ByteSliceReader.constructor | src/core/util/byte_slice_reader.rs:65-82 | stands at the first byte, with the limit right for one slice or several |
| SliceStreams.ByteSliceReader.Eof | src/core/util/byte_slice_reader.rs:84-87 | true exactly when the whole content has been read |
| SliceStreams.ByteSliceReader.NextSlice | src/core/util/byte_slice_reader.rs:89-114 | follows the forwarding address to the next part of the content |
| SliceStreams.ByteSliceReader.Read | src/core/util/byte_slice_reader.rs:118-142 | the next bytes of the content, however many |
| SliceStreams.ReadBack | src/core/util/byte_slice_reader.rs:65-142 | whatever was written to the streams of a pool in whatever order, each is read back exactly, in any chunks |
| BytesRefHash.Insert | src/core/util/bytes_ref_hash.rs:218-219 | an id in the first open slot of its probe sequence is found by probing, and so are all others still |
| BytesRefHash.OpenSlot | src/core/util/bytes_ref_hash.rs:275-294 | a table with fewer ids than slots has an open slot on every probe sequence, so every search ends |
| BytesRefHash.Absent | src/core/util/bytes_ref_hash.rs:275-294 | a search that ends on an open slot proves that the string is not in the table |
| BytesRefHash.BytesRefHash.FindHash | src/core/util/bytes_ref_hash.rs:275-294 | the slot of the string, or the open slot where it belongs if it is absent |
| BytesRefHash.BytesRefHash.Get | src/core/util/bytes_ref_hash.rs:90-94 | the string of an id |
| BytesRefHash.BytesRefHash.ComparesStrings | src/core/util/bytes_ref_hash.rs:125-129 | comparing by id compares the string of that id |
| BytesRefHash.BytesRefHash.Rehash | src/core/util/bytes_ref_hash.rs:300-349 | twice the slots, the same strings under the same ids, and every one found |
| BytesRefHash.BytesRefHash.Add | src/core/util/bytes_ref_hash.rs:172-229 | a new string gets the next id, the next place of the pool that has room, and a table twice as large if that is half full; a known one its own id, negated; it fails exactly for a new string of 32766 bytes or more that does not fit behind the head |
| BytesRefHash.ShrunkSize | src/core/util/bytes_ref_hash.rs:131-138 | a power of two that is not shrunk below four nor further than the last count allows |
| BytesRefHash.BytesRefHash.Clear | src/core/util/bytes_ref_hash.rs:152-165 | an empty table ready for new strings, also after a sort |
| BytesRefHash.BytesRefHash.NoSearchStops | src/core/util/bytes_ref_hash.rs:275-294 | no search in a usable table meets an id without a string |
| BytesRefHash.BytesRefHash.Reinit | src/core/util/bytes_ref_hash.rs:351-359 | usable exactly if the table was still there; if not, every search stops at an id without a string |
| BytesRefHash.BytesRefHash.CloseAndReinit | src/core/util/bytes_ref_hash.rs:167-170 | so it is for every hash that is closed and initialised again |
| BytesRefHash.Compact | src/core/util/bytes_ref_hash.rs:100-115 | the ids move to the front in their order |
| BytesRefHash.PackedFilled | src/core/util/bytes_ref_hash.rs:112-112 | the compacted front has every id once, as many as were counted |
| BytesRefHash.BytesRefHash.Sort | src/core/util/bytes_ref_hash.rs:117-123 | all ids stand at the front in strictly increasing order of their strings |
| BytesRefHash.SortedOnto | src/core/util/bytes_ref_hash.rs:117-123 | no id is missing from a sorted table |
| SortedSet.SortedOnce | src/core/codec/doc_values/doc_values_writer.rs:1166-1178 | the ids of a document, ascending and each once |
| SortedSet.SortedSetWriter.AddValue | src/core/codec/doc_values/doc_values_writer.rs:1137-1163 | a value of 1 to 32765 bytes joins the current document, which is finished first if it is another one; none is refused, more than 32766 bytes are refused, and exactly 32766 bytes stop at an assertion |
| SortedSet.SortedSetWriter.FinishCurrentDoc | src/core/codec/doc_values/doc_values_writer.rs:1166-1185 | one more document, with one count and exactly its values |
| SortedSet.SortedSetWriter.Finish | src/core/codec/doc_values/doc_values_writer.rs:1226-1232 | every document up to the number given has a count |
| SortedSet.OrdsOrder | src/core/codec/doc_values/doc_values_writer.rs:1251-1253 | ordinals compare as the strings do |
| SortedSet.AllOrds | src/core/codec/doc_values/doc_values_writer.rs:1329-1349 | the ordinals of every document, ascending and of exactly its values |
| SortedSet.SortedSetWriter.Flush | src/core/codec/doc_values/doc_values_writer.rs:1234-1286 | the values strictly increase and are those of the documents; one count for each document; its ordinals strictly increase and name exactly the values added to it |
| SortedSet.RemappedOrder | src/core/codec/doc_values/doc_values_writer.rs:1201-1221 | without a sort the ordinals of a document ascend exactly if its strings were added to the field in order |
| SortedSet.SortedFlushDescends | src/core/codec/doc_values/doc_values_writer.rs:1201-1221 | a writer that is given "b" and "a" for its only document: the ordinals descend |
| SortedSet.SortedSetWriter.FlushSorted | src/core/codec/doc_values/doc_values_writer.rs:1257-1273 | for a sorted index every document's values are at its new place, and when its ordinals ascend |
| FixedBitSet.FixedBitSet.Set | src/core/util/bit_set.rs:297-304 | adds exactly one member |
| FixedBitSet.FixedBitSet.Clear | src/core/util/bit_set.rs:330-335 | removes exactly one member |
| FixedBitSet.FixedBitSet.BatchSet | src/core/util/bit_set.rs:306-328 | adds exactly the members of the range, over any number of words |
| FixedBitSet.FixedBitSet.ClearBatch | src/core/util/bit_set.rs:337-360 | removes exactly the members of the range |
| FixedBitSet.FixedBitSet.Get | src/core/util/bit_set.rs:369-376 | membership |
| FixedBitSet.FixedBitSet.SetOr | src/core/util/bit_set.rs:249-259 | the union, refused exactly if the other set has more words; in order exactly if the other members are below the own number of bits |
| FixedBitSet.BeyondTheBits | src/core/util/bit_set.rs:249-259 | 70 bits with 100 bits: bit 99 is set and does not belong |
| FixedBitSet.FixedBitSet.Cardinality | src/core/util/bit_set.rs:263-265 | the number of members |
| FixedBitSet.FixedBitSet.NextSetBit | src/core/util/bit_set.rs:267-293 | the least member from the index on, also where the signed shift repeats the highest bit |
| FixedBitSet.GhostBitsClear | src/core/util/bit_set.rs:195-206 | true exactly if no member is beyond the number of bits |
| FixedBitSet.CopyBits | src/core/util/bit_set.rs:154-170 | the set of the stored bits, or which of the two reasons there is against it |
| FixedBitSet.FixedBitSet.EnsureCapacity | src/core/util/bit_set.rs:179-190 | members are kept, there is room exactly if there was or the words needed are not fewer than those stored, and then for 64 bits more than the words needed |
| FixedBitSet.LargerStoreNotUsed | src/core/util/bit_set.rs:179-190 | a set that has no room after it was asked for |
| DocIdSets.IntArrayDocIterator.Next | src/core/util/doc_id_set.rs:156-160 | the least member after the last one, or the end mark |
| DocIdSets.IntArrayDocIterator.Advance | src/core/util/doc_id_set.rs:162-170 | the least member from the target on, or the end mark |
| DocIdSets.BitSetDocIterator.Advance | src/core/util/doc_id_set.rs:84-91 | the same over a bit set |
| DocIdSets.BitSetDocIterator.Next | src/core/util/doc_id_set.rs:79-82 | the same, one step on |
| DocIdSets.ShortArrayDocIterator.Next | src/core/util/doc_id_set.rs:243-251 | the least member after the last one returned, or the end mark, at which the current document stays |
| DocIdSets.ShortArrayDocIterator.Advance | src/core/util/doc_id_set.rs:253-272 | the least member from the target on exactly if the target has 16 bits or no member is left from the cut target on |
| DocIdSets.CutTarget | src/core/util/doc_id_set.rs:253-272 | a target of 17 bits for which it is not |
| DocIdSets.NotDocIterator.Advance | src/core/util/doc_id_set.rs:331-352 | the least document below the maximum that is not in the set of short numbers, from any target on |
| DocIdSets.RunEnumerates | src/core/util/doc_id_set.rs:74-175 | a whole run of an iterator returns every member once, in increasing order, and then the end mark |
| DocIdSets.DrainArray | src/core/util/doc_id_set.rs:128-170 | calling `next` up to the end mark on the iterator of an int array is such a run |
| DocIdSets.DrainBits | src/core/util/doc_id_set.rs:51-91 | the same on the iterator of a bit set |
| DocIdSets.DrainNot | src/core/util/doc_id_set.rs:303-352 | the same for the documents that are not in the set, so exactly these are returned |
| DocIdSets.BuildAndDrain | src/core/util/doc_id_set_builder.rs:224-253 | the iterator of the set that was built returns exactly the documents added, each once, strictly increasing, then the end mark; and when building fails |
| DocIdSets.SortedDocs | src/core/util/doc_id_set_builder.rs:123-253 | the same from documents in any order and with repetitions |
| DocIdSets.AddBatch | src/core/util/doc_id_set_builder.rs:123-189 | how many slots are allocated and free after one more batch, or that a bit set is used, by the numbers asked for |
| DocIdSets.BuildBatches | src/core/util/doc_id_set_builder.rs:123-253 | a whole run from batches of documents to what the iterator returns; it fails exactly if documents repeat against the promise and the numbers asked for have left them in buffers |
| DocIdSets.TwiceTheSame | src/core/util/doc_id_set_builder.rs:224-253 | such a run that fails |
| DocIdSets.DocIdSetBuilder.AdditionalCapacity | src/core/util/doc_id_set_builder.rs:177-189 | the greatest of the documents asked for and one more, the slots so far, and 32; less only if the threshold leaves less |
| DocIdSets.DocIdSetBuilder.Grow | src/core/util/doc_id_set_builder.rs:141-152 | room for the documents asked for, and nothing added is lost: in a new buffer of the capacity above if all slots stay within a 128th of the documents, and otherwise in a bit set |
| DocIdSets.DocIdSetBuilder.AddDoc | src/core/util/doc_id_set_builder.rs:123-137 | adds the document, inside the buffer as long as the room lasts |
| DocIdSets.DocIdSetBuilder.UpgradeToBitSet | src/core/util/doc_id_set_builder.rs:206-222 | the bit set has exactly the documents of the buffers |
| DocIdSets.Concat | src/core/util/doc_id_set_builder.rs:257-287 | all documents of all buffers in one array, with an empty slot behind them; it is as long as the largest buffer, or longer just as needed |
| DocIdSets.Dedup | src/core/util/doc_id_set_builder.rs:289-305 | strictly increasing, and the same members |
| DocIdSets.NoDups | src/core/util/doc_id_set_builder.rs:307-312 | its assertions hold exactly if there are no duplicates |
| DocIdSets.DocIdSetBuilder.Build | src/core/util/doc_id_set_builder.rs:224-253 | a set of exactly the documents added, in the form its iterator expects, a bit set exactly if the documents had left the buffers; it fails exactly for duplicates in buffers that were declared free of them |
| SparseBits.NewSparseBits | src/core/util/bits.rs:267-285 | refused exactly if a doc id is not below the maximum |
| SparseBits.SparseBits.Gallop | src/core/util/bits.rs:292-314 | ends between two places whose doc ids enclose the one sought |
| SparseBits.SparseBits.BinarySearch | src/core/util/bits.rs:316-334 | ends between two neighbours that enclose it |
| SparseBits.SparseBits.CheckInvariants | src/core/util/bits.rs:336-371 | the checks pass exactly if the context stands around the doc id |
| SparseBits.SparseBits.Get64 | src/core/util/bits.rs:381-393 | membership for any queries in any order on one context, and the checks never fail |
| DisiQueue.OnTopUp | src/core/util/disi.rs:211-230 | with an entry on the least doc, all on the way up to the root are on it |
| DisiQueue.TopListTo | src/core/util/disi.rs:211-230 | prepends exactly the entries of a subtree that are on the least doc, each once |
| DisiQueue.DisiPriorityQueue.TopList | src/core/util/disi.rs:192-204 | following the links meets exactly the entries on the least doc, each once, and ends |
| DisiQueue.DisiPriorityQueue.Push | src/core/util/disi.rs:239-245 | one more entry, heap order kept |
| DisiQueue.DisiPriorityQueue.Pop | src/core/util/disi.rs:252-261 | takes out an entry on the least doc and keeps the others |
| DisiQueue.DisiPriorityQueue.UpdateTop | src/core/util/disi.rs:279-283 | restores the order after the top has moved to another doc, keeping all entries |
| DisiQueue.UpHeap | src/core/util/disi.rs:297-309 | moves the new entry up to where its doc belongs |
| DisiQueue.DownHeap | src/core/util/disi.rs:311-336 | moves the root down to where its doc belongs |
| TermsMax.SearchDigit | src/core/codec/terms.rs:181-205 | the highest byte, 0xFF excepted, after which there still is a term, or none |
| TermsMax.SearchMax | src/core/codec/terms.rs:168-210 | the greatest term of a field of unknown size, if that has no byte 0xFF |
| TermsMax.TrailNeverEnds | src/core/codec/terms.rs:180-209 | at a byte 0xFF the search falls behind the greatest term and goes on for ever |
| TermsMax.SearchEnds | src/core/codec/terms.rs:180-209 | the search ends if and only if the greatest term has no byte 0xFF |
| Gcd.GcdGreatest | src/core/util/math.rs:43-75 | every common divisor divides the greatest one |
| Gcd.GcdHalve | src/core/util/math.rs:55-60 | halving one number does not matter if the other is odd |
| Gcd.GcdParts | src/core/util/math.rs:55-59 | the trailing zeros of both numbers are a factor of the result, which otherwise is that of the odd parts |
| Gcd.OrZeros | src/core/util/math.rs:55 | the or of two numbers ends in as many zeros as both of them do |
| Gcd.ShiftedOdd | src/core/util/math.rs:56-59 | shifting the trailing zeros out leaves the odd part |
| Gcd.BinaryGcd | src/core/util/math.rs:43-75 | Euclid's greatest common divisor of the absolute values; not above either number, so the last shift stays in 64 bits |
| LeafSlices.Slice | src/core/search/searcher.rs:409-444 | every leaf is in exactly one slice, a large one alone; slices of several leaves keep both limits and no small leaf of a later slice would go into an earlier one; slices come in the order of their leaves' sizes, but the last one of small leaves stands behind large leaves; when a slice is empty |
| LeafSlices.NoSegments | src/core/search/searcher.rs:409-444 | two leaves and a limit of no segments: a slice is empty |
| LeafSlices.SearchSlices | src/core/search/searcher.rs:286-287 | the same for the limits of the searcher, 250000 documents and 20 segments, with no slice empty |
| LeafSlices.StepKeepsWorth | src/core/search/searcher.rs:816-868 | no step of a worker or of the receiver loses or invents a hit |
| LeafSlices.ParallelCount | src/core/search/searcher.rs:501-603 | however workers and receiver interleave, a run that is over has counted what a search of one leaf after the other counts |
| LeafSlices.Progress | src/core/search/searcher.rs:816-828 | a run that is not over can go on |
| LeafSlices.StepShortens | src/core/search/searcher.rs:816-828 | every step brings a run nearer to its end |

## Left out

- Files, directories, checksums, codecs, postings, FSTs and points: input and output over stores, or code that is not part of this model.
- Deflate compression and `VecReadWriteBuf`: foreign code.
- `LZ4::common_bytes_backward` and `hash_hc`: not used by the compressor.
- Lz4.Decompress: lengths are unbounded, so the 32-bit overflow of a length on malformed input is not modelled; inputs of `Lz4.Compress` are shorter than 2^31 bytes, as its types require.
- Lz4.Hash: any function stands for the hash in `Lz4.Compress`; this one is the code's own.
- Packed-integer containers: plain sequences, except for the width of the slots in `OrdinalMap.Store` and `Lz4.HashTable.Reset`; 64-bit slots hold any number, and the memory estimate that chooses between packed and monotonic form is a parameter.
- MultiTerms.MultiTermIterator.SeekExact: where a sub that lacks the term is left is a parameter, because sub iterators do not specify it.
- `BytesRefHash::add_by_pool_offset`, and addresses beyond 32 bits: pool addresses are unbounded in `BytesRefHash`; in `SliceStreams` the pool stays below 2^31 bytes, which the indexing code ensures by its flush flag.
- murmur3: any function of the bytes.
- BytesRefHash.BytesRefHash.Sort: the sorter reads the strings once into a list in place of reading them from the pool for every comparison.
- `ByteBlockPool::read_bytes` and `append`: their branches over several blocks.
- Lazy iteration: `SortedSet.AllOrds` and `SortedSet.SortedSetWriter.Flush` return whole lists in place of iterators that deliver them one by one.
- DocIdSets.DocIdSetBuilder.Build: the cost estimate, which is floating point, and `DocIdSetBuilder::add`.
- DisiQueue.UpHeap: entries are exchanged with the hole in place of one copy at the end, and slots beyond the size are not modelled.
- FixedBitSet: a 64-bit word is the sequence of its bits; `flip` and `intersects` are not modelled.
- `RadixSelector`, `DefaultMSBIntroSorter` and `SortedOrdsIterator`.
- DocValuesUpdates.FieldUpdates.Add: the columns of documents and values are one array, slots hold any number, and an iterator has a copy of the store; what a read outside the store gives is not modelled.
- TermsMax.SearchMax: the branch for a known number of terms, which seeks to the last ordinal.
- LeafSlices.ParallelCount: scorers that fail and collectors that time out; counts are unbounded.
- `SearcherManager`, highlighting, documents and fields: thin, or outside the engines above.
