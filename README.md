# IVF index bookkeeping, modelled in Dafny

This project models the bookkeeping core of faiss's `IndexIVF`, as vendored in
Milvus. An IVF index splits its vectors over `nlist` inverted lists, one list
per centroid of a coarse quantizer. Each list stores (id, code) entries, and
the index keeps a count `ntotal` of the vectors added.

The model covers these parts:

- **Level-1 quantizer codec** (`Level1Quantizer`).
  - The width in bytes of an encoded list number (`coarse_code_size`).
  - Little-endian encoding of a list number into that many bytes (`encode_listno`).
  - The checked decoding (`decode_listno`). It rejects any value that is not a list of the index.
- **The inverted-lists store** (`InvertedLists`). The array-backed store is a class holding one sequence of entries per list. Its invariant says every stored code is `code_size` bytes long. Its operations are `add_entry`, `reset`, `merge_from` and the removal of selected ids.
- **Adding** (`IvfAdd`, `Ivf.IndexIVF.AddWithIds`).
  - Adds larger than 65536 vectors are split into batches.
  - The untrained check.
  - Each worker `rank` of `nt` appends the inputs whose list number is congruent to `rank` modulo `nt`.
  - Ids are `xids[i]`, or `ntotal + i` when no ids are given.
  - `ntotal` grows by the whole batch.
- **Probing** (`IvfProbe`, `Ivf.IndexIVF.SearchPreassigned`): the parallel-mode-0 loop of `search_preassigned`.
  - Each query visits its `nprobe` keys in order.
  - A negative key or an empty list contributes nothing.
  - A key at or above `nlist` aborts the call.
  - The loop stops as soon as the codes scanned reach a non-zero `max_codes`.
  - A call's parameters override the index's `nprobe` and `max_codes`.
- **Merging and copying** (`Ivf.IndexIVF.MergeFrom`, `IvfSubset`, `Ivf.IndexIVF.CopySubsetTo`).
  - The compatibility checks.
  - The three subset policies of `copy_subset_to`:
    - an id range;
    - an id remainder, using C++'s truncating `%`;
    - a proportional slice of every list.
  - The final `accu_n == ntotal` assertion.
- **reset, remove_ids, reconstruct_n, sa_code_size and replace_invlists** (`Ivf`, `IvfReconstruct`).
  - `reconstruct_n` returns the (list, offset) positions it would reconstruct.

`size_t` and `int64_t` are modelled explicitly where wrap-around matters:
- `nlist - 1` wraps when `nlist == 0`;
- the decoded value is reinterpreted as signed;
- the type-2 count `i2 - i1` of `copy_subset_to` wraps (see Findings).

Code that updates state in place is modelled imperatively:
- The index and the store are classes, and their methods carry `modifies` clauses.
- The byte codecs write to and read from an `array`.
- Loops carry their invariants.

Each method is proved against a value-level function: `AddedLists`, `RankProgress`, `ProbeQuery`, `SearchUpTo`, `Copied`, `WithoutAll` or `Hits`. The properties of those functions are proved as lemmas.

The expectation that `ntotal` equals the number of stored entries does not hold in the code. `add_with_ids` adds the whole batch to `ntotal`, but stores nothing for an input whose assignment is negative. The model follows the code (`IvfAdd.AddWithNegativeBreaksCount`). `reset`, `remove_ids`, `merge_from` and `copy_subset_to` (for the target index, with the corrected type-2 count; as written, line 950 of `IndexIVF.cpp` does not keep it, see Findings) are proved to keep it when it held before. `replace_invlists` does not keep it either: it installs any store of the right geometry and leaves `ntotal` as it was, since the source's `ntotal == 0` check is commented out.

## Model

| member | source | states |
|---|---|---|
| Level1Quantizer.CoarseCodeSize | core/src/index/thirdparty/faiss/IndexIVF.cpp:125-134 | the byte count is the least width whose range holds `nlist - 1` (computed in `size_t`) |
| Level1Quantizer.CoarseWidthUnique | core/src/index/thirdparty/faiss/IndexIVF.cpp:125-134 | only one byte count is the least width that holds `nlist - 1` |
| Level1Quantizer.CoarseWidthExamples | core/src/index/thirdparty/faiss/IndexIVF.cpp:125-134 | one list needs 0 bytes, up to 256 lists need 1, up to 65536 need 2, and `nlist == 0` wraps to 8 |
| Level1Quantizer.WidthAtMost8 | core/src/index/thirdparty/faiss/IndexIVF.cpp:125-134 | a `size_t` list count never needs more than 8 bytes |
| Level1Quantizer.EncodeListNo | core/src/index/thirdparty/faiss/IndexIVF.cpp:136-145 | writes exactly the coarse width's low bytes of the list number, least significant first, and leaves every other byte of the buffer unchanged |
| Level1Quantizer.DecodeListNo | core/src/index/thirdparty/faiss/IndexIVF.cpp:147-159 | reads the little-endian value of the coarse width's bytes as an `int64_t`; it is accepted only when it lies in `[0, nlist)`, otherwise the result is a range error |
| Level1Quantizer.ListNoRoundTrip | core/src/index/thirdparty/faiss/IndexIVF.cpp:136-159 | encoding any list number of the index and decoding it gives that list number back |
| Level1Quantizer.DecodeRejectsSomeIffNotPowerOf256 | core/src/index/thirdparty/faiss/IndexIVF.cpp:147-159 | (widths below 8) some byte string of the right width is rejected iff `nlist` is not a power of 256 |
| Level1Quantizer.DecodeRejectsExample | core/src/index/thirdparty/faiss/IndexIVF.cpp:147-159 | with 3 lists the code byte 0xff is rejected |
| InvertedLists.ArrayInvertedLists.constructor | core/src/index/thirdparty/faiss/IndexIVF.cpp:173 | a new store holds `nlist` empty lists |
| InvertedLists.ArrayInvertedLists.AddEntry | core/src/index/thirdparty/faiss/IndexIVF.cpp:243-246 | appends a `code_size`-byte entry to the end of its list only and returns the entry's offset; every stored code stays `code_size` bytes |
| InvertedLists.ArrayInvertedLists.Reset | core/src/index/thirdparty/faiss/IndexIVF.cpp:790 | every list becomes empty |
| InvertedLists.ArrayInvertedLists.MergeFrom | core/src/index/thirdparty/faiss/IndexIVF.cpp:873 | each list is followed by the other store's list, ids shifted by `add_id`; the other store is emptied |
| InvertedLists.ArrayInvertedLists.RemoveIds | core/src/index/thirdparty/faiss/IndexIVF.cpp:797 | keeps exactly the unselected entries (in their original order, a modelling choice); the count returned plus the entries left equals the entries before |
| InvertedLists.TotalSizeConcat | core/src/index/thirdparty/faiss/IndexIVF.cpp:873-875 | appending lists adds their entry counts, so merging moves the number of entries stored in `other`'s lists, which is `other.ntotal` when `other`'s count matches its lists |
| InvertedLists.TotalSizeShift | core/src/index/thirdparty/faiss/IndexIVF.cpp:873 | shifting ids does not change the entry count |
| InvertedLists.WithoutMembers | core/src/index/thirdparty/faiss/IndexIVF.cpp:797 | an entry survives removal iff it was stored and its id is not selected |
| InvertedLists.WithoutAllShrinks | core/src/index/thirdparty/faiss/IndexIVF.cpp:797-798 | removal never adds entries, so `ntotal -= nremove` does not go below zero when `ntotal` is at least the stored entry count |
| IvfAdd.PickedMembers | core/src/index/thirdparty/faiss/IndexIVF.cpp:239-246 | input `i` is in list `l` iff it is assigned to `l`, with id `xids[i]` or `ntotal + i` and its code; a negative assignment puts it in no list |
| IvfAdd.AddedListsSplit | core/src/index/thirdparty/faiss/IndexIVF.cpp:204-215 | adding in consecutive batches gives the same lists as adding all inputs at once |
| IvfAdd.AddedListsStep | core/src/index/thirdparty/faiss/IndexIVF.cpp:240-246 | the next input goes to the end of its list, or nowhere when its assignment is negative |
| IvfAdd.AddedListsSize | core/src/index/thirdparty/faiss/IndexIVF.cpp:222-250 | the lists grow by exactly the number of inputs with a non-negative assignment |
| IvfAdd.AddWithNegativeBreaksCount | core/src/index/thirdparty/faiss/IndexIVF.cpp:240-262 | one negative assignment leaves `ntotal` larger than the number of stored entries |
| IvfAdd.RankProgressAt | core/src/index/thirdparty/faiss/IndexIVF.cpp:233-255 | while worker `rank` is at input `i`, lower ranks have added all their inputs, worker `rank` those before `i`, and higher ranks none |
| IvfAdd.RankProgressDone | core/src/index/thirdparty/faiss/IndexIVF.cpp:233-255 | once every worker is done, splitting the lists by `list_no % nt` gives the same lists as adding the inputs in order, whatever `nt` |
| IvfProbe.ProbeStopsAtFirstBudgetHit | core/src/index/thirdparty/faiss/IndexIVF.cpp:482-496 | probing stops right after the first probe at which the count reaches a non-zero `max_codes`; with `max_codes == 0` every probe is visited; before the last visited probe the count is below the budget |
| IvfProbe.ScannedListsSound | core/src/index/thirdparty/faiss/IndexIVF.cpp:427-459 | only valid, non-empty lists are scanned, and the count scanned is the sum of their sizes |
| IvfProbe.SearchUpToAborted | core/src/index/thirdparty/faiss/IndexIVF.cpp:431-433 | once a query has hit an invalid key, the whole call fails with that error |
| IvfSubset.SelectMembers | core/src/index/thirdparty/faiss/IndexIVF.cpp:916-935 | types 0 and 1 copy exactly the entries whose id is in `[a1, a2)`, or whose id `% a1` (truncating) is `a2` |
| IvfSubset.SelectRangeSplit | core/src/index/thirdparty/faiss/IndexIVF.cpp:916-925 | the copies of two adjacent id ranges together hold the entries of the joined range |
| IvfSubset.SelectRangeDisjoint | core/src/index/thirdparty/faiss/IndexIVF.cpp:916-925 | the copies of two adjacent id ranges share no entry |
| IvfSubset.SelectRangeAll | core/src/index/thirdparty/faiss/IndexIVF.cpp:916-925 | a range that covers every id copies the whole list |
| IvfSubset.ShareStep | core/src/index/thirdparty/faiss/IndexIVF.cpp:938-942 | over one list, the share of `a` grows by at least zero and at most the list's size, so type 2 reads inside the list |
| IvfSubset.AsWrittenGrowthTotal | core/src/index/thirdparty/faiss/IndexIVF.cpp:936-952 | under the as-written type-2 count, `other.ntotal` grows by `a2 - a1` in total |
| IvfSubset.AsWrittenGrowthMiscounts | core/src/index/thirdparty/faiss/IndexIVF.cpp:944-950 | list sizes 2, 1, 2 with `a1 = 2, a2 = 3` copy 2 entries while `other.ntotal` grows by 1 |
| IvfReconstruct.HitsMembers | core/src/index/thirdparty/faiss/IndexIVF.cpp:708-720 | the positions reconstructed are exactly the stored entries whose id is in `[i0, i0 + ni)` |
| IvfReconstruct.HitsOrdered | core/src/index/thirdparty/faiss/IndexIVF.cpp:708-720 | positions are visited list by list and in offset order, each once |
| IvfReconstruct.HitSlotsInRange | core/src/index/thirdparty/faiss/IndexIVF.cpp:714-718 | every reconstructed entry's output slot `id - i0` lies inside the `ni` requested |
| Ivf.IndexIVF.constructor | core/src/index/thirdparty/faiss/IndexIVF.cpp:168-187 | an owned store of `nlist` empty lists, `ntotal == 0`, `nprobe == 1`, `max_codes == 0`, trained iff the quantizer is trained and holds `nlist` centroids |
| Ivf.IndexIVF.Create | core/src/index/thirdparty/faiss/IndexIVF.cpp:168-187 | construction fails iff the quantizer's dimension differs from `d`; otherwise it gives a fresh index with a fresh owned empty store, `ntotal == 0`, no direct map, `nprobe == 1`, `max_codes == 0` and the constructor's trained flag |
| Ivf.IndexIVF.WorkerPass | core/src/index/thirdparty/faiss/IndexIVF.cpp:235-254 | one worker's pass appends, in input order, exactly the inputs whose list it owns |
| Ivf.IndexIVF.AddBatch | core/src/index/thirdparty/faiss/IndexIVF.cpp:217-262 | untrained: fails and changes nothing; otherwise the lists are the inputs added in order, for any thread count, and `ntotal` grows by the batch size |
| Ivf.IndexIVF.AddWithIds | core/src/index/thirdparty/faiss/IndexIVF.cpp:201-263 | the same for any input size: batching does not change the result |
| Ivf.IndexIVF.ProbeOneQuery | core/src/index/thirdparty/faiss/IndexIVF.cpp:482-496 | one query's loop gives the lists scanned and the count of the budget rule, or fails with an invalid key |
| Ivf.IndexIVF.SearchQueries | core/src/index/thirdparty/faiss/IndexIVF.cpp:469-505 | query `q` probes the keys `q * nprobe .. (q + 1) * nprobe`; results come in query order; an invalid key fails the call |
| Ivf.IndexIVF.SearchPreassigned | core/src/index/thirdparty/faiss/IndexIVF.cpp:363-505 | the call's parameters, when given, replace the index's `nprobe` and `max_codes` |
| Ivf.IndexIVF.CheckCompatibleForMerge | core/src/index/thirdparty/faiss/IndexIVF.cpp:856-866 | passes iff dimension, list count, code size and kind agree and neither index has a direct map; the error says which |
| Ivf.IndexIVF.MergeFrom | core/src/index/thirdparty/faiss/IndexIVF.cpp:869-877 | on failure nothing changes; otherwise all of other's entries move here with shifted ids, other is emptied, and the counts move with them |
| Ivf.IndexIVF.CopyListByPolicy | core/src/index/thirdparty/faiss/IndexIVF.cpp:916-935 | appends the selected entries of one list to the same list of `other`, counting each |
| Ivf.IndexIVF.CopyListSlice | core/src/index/thirdparty/faiss/IndexIVF.cpp:944-950 | appends entries `i1..i2` (none when `i2 <= i1`) and counts the entries appended |
| Ivf.IndexIVF.CopyOneList | core/src/index/thirdparty/faiss/IndexIVF.cpp:912-955 | one iteration copies that list's part of the subset and advances `accu_n`, `accu_a1` and `accu_a2` |
| Ivf.IndexIVF.CopyAllLists | core/src/index/thirdparty/faiss/IndexIVF.cpp:906-955 | every list of `other` is followed by its part of the subset; `accu_n` ends as the stored entry count |
| Ivf.IndexIVF.CopySubsetTo | core/src/index/thirdparty/faiss/IndexIVF.cpp:895-958 | a failed check changes nothing; otherwise `other` receives exactly the policy's subset and counts it, this index is unchanged, and the final assertion fails iff the lists do not hold `ntotal` entries |
| Ivf.IndexIVF.Reset | core/src/index/thirdparty/faiss/IndexIVF.cpp:787-792 | all lists empty and `ntotal == 0` |
| Ivf.IndexIVF.RemoveIds | core/src/index/thirdparty/faiss/IndexIVF.cpp:795-800 | keeps exactly the unselected entries, lowers `ntotal` by the count removed, and keeps `ntotal` equal to the entry count when it was |
| Ivf.IndexIVF.ReconstructN | core/src/index/thirdparty/faiss/IndexIVF.cpp:704-722 | fails iff the range is non-empty and not inside `[0, ntotal)`; otherwise gives exactly the positions whose id is in range |
| Ivf.IndexIVF.SaCodeSize | core/src/index/thirdparty/faiss/IndexIVF.cpp:726-730 | the code size plus the coarse width |
| Ivf.IndexIVF.ReplaceInvlists | core/src/index/thirdparty/faiss/IndexIVF.cpp:880-892 | fails iff the new store's geometry differs; a failure leaves the index as it was; a success installs the store with the given ownership; `ntotal`, the trained flag, the direct map, `nprobe` and `max_codes` are kept either way |
| Ivf.IndexIVF.ReplaceInvlistsAsWritten | core/src/index/thirdparty/faiss/IndexIVF.cpp:880-892 | as written: an owned store is deleted before the check, so a rejection leaves the index on a deleted store; `ntotal`, the trained flag, the direct map, `nprobe` and `max_codes` are kept either way |
| Ivf.ReplaceRejectedLeavesDeletedStore | core/src/index/thirdparty/faiss/IndexIVF.cpp:882-890 | a concrete rejection (5 lists for a 4-list index) leaves the index pointing at a deleted store |

## Left out

- Training, the coarse quantizer's `assign` and `search`, and `encode_vectors` are left out. Their results are inputs: the list of each vector, and its code bytes.
- Distances, the result heaps, `store_pairs`, the bitset, and the scanner's `scan_codes` are left out. A query's model result is the lists handed to the scanner and the codes counted.
- Parallel modes 1 and 2 of `search_preassigned` are left out. So are the interrupt callback and the `nlistv`/`ndis`/`nheap` statistics.
- OpenMP scheduling is not modelled. The `nt` workers of `add_with_ids` run one after another in rank order. This is enough because each list is owned by exactly one worker.
- The direct map is reduced to whether one exists. Left out: `check_can_add`, `DirectMapAdd`, the map's own `remove_ids`, and `clear` in `reset`.
- `IDSelector` is a finite set of ids.
- `reconstruct_from_offset` is not called. `reconstruct_n` returns the positions it would reconstruct.
- `range_search`, `search_and_reconstruct`, `sa_encode`, `sa_decode`, `make_direct_map`, `update_vectors`, `train`, the metric and clustering settings, and verbose logging are left out.
- The store's own implementation (InvertedLists.cpp) is not part of this model. The store's operations are whole-sequence updates on a class field.
- Ivf.IndexIVF.CopySubsetTo: when the checks of lines 899-904 pass, requires `a1 != 0` for type 1. For type 2 with `nlist > 0`, it also requires `ntotal > 0` and `0 <= a1, a2 <= ntotal`. The source does not check these. Outside them, once the checks pass, it may divide by zero or read past the end of a list. Calls that the checks reject are modelled for every argument.
- Ivf.IndexIVF.CopySubsetTo: `other` must not be this index, or share its store (which `replace_invlists(il, false)` can produce). In the source that case reads ids and codes out of a list that `add_entry` is growing at the same time.
- Ivf.IndexIVF.MergeFrom: `other` must be a different index with a different store. Merging an index into itself is outside the model.
- Ivf.IndexIVF.AddWithIds: requires every assignment to be below `nlist`. The quantizer never returns a larger one, and `add_entry` does not check.
- Ivf.IndexIVF.CopySubsetTo: `next_accu_n * a1` and `ntotal` are unbounded integers. Overflow of their `size_t` products is not modelled.
- InvertedLists.ArrayInvertedLists.RemoveIds: the entries that survive removal keep their original order. This is a modelling choice: the removal routine behind `direct_map.remove_ids` is not part of this model, and it may move entries within a list (for instance, filling each hole with the list's last entry). The order of `reconstruct_n`'s positions and of the slices of `copy_subset_to` type 2 after a removal follow this choice. The same applies to Ivf.IndexIVF.RemoveIds, which also does not model the error the direct map raises when it cannot remove ids.
- The deletion of a store is a flag, `storeFreed`, not deallocation. Access through a dangling pointer is not modelled beyond that flag.

## Findings

| source | as written | input that shows it | evidently intended | confidence | as-written member | corrected member |
|---|---|---|---|---|---|---|
| core/src/index/thirdparty/faiss/IndexIVF.cpp:936-950 | type 2 adds `i2 - i1` (in `size_t`) to `other.ntotal` for every list, even when `i1 > i2` and nothing is copied from that list | list sizes 2, 1, 2 (ntotal 5), `a1 = 2`, `a2 = 3`: list 1 has `i1 = 1 > i2 = 0`; 2 entries are copied, `other.ntotal` grows by 1 | `other.ntotal` grows by the number of entries appended, so it stays equal to the stored entry count | not executed | IvfSubset.AsWrittenGrowthMiscounts | Ivf.IndexIVF.CopySubsetTo |
| core/src/index/thirdparty/faiss/IndexIVF.cpp:880-892 | an owned store is deleted before the geometry check, so a rejected store leaves `invlists` pointing at freed memory; `replace_invlists(invlists, true)` on an owned store does the same | an index with 4 lists that owns its store, and a store with 5 lists | check first and delete the old store only when it is replaced by a different one | not executed | Ivf.ReplaceRejectedLeavesDeletedStore | Ivf.IndexIVF.ReplaceInvlists |
