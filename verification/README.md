# VelesDB core, modelled in Dafny

VelesDB is a vector database with a graph layer and a SQL-like query
language, VelesQL. This project models the parts of its core that are
pure logic: the functions whose behaviour is fixed by the code and does not
depend on storage, threads or floating-point rounding. It proves what that
logic promises. Each Dafny module follows one source component:

- **Python side**
  - the legacy-syntax normaliser, the parse-with-one-retry policy and the LIKE/ILIKE payload filter of the `velesdb` package (`LegacyQuery`);
  - the input validators of the integrations (`Security`);
  - the streaming breadth-first traversal of the Python graph store (`StreamingBfs`).
- **Storage**
  - the write-ahead log and snapshot codec of the log-structured payload storage, with replay and its stop-on-corruption rules (`WalCodec`);
  - column-store vacuum (`Vacuum`).
- **Graph structures**
  - the in-memory edge store (`EdgeStore`);
  - the compressed adaptive radix tree nodes (`Cart`, `CartProofs`) and the `CompressedART` set over them (`CompressedArt`);
  - the degree-adaptive adjacency lists (`DegreeRouter`);
  - the slot pool (`MemoryPool`);
  - the composite hash indexes (`CompositeIndex`);
  - the range indexes with their value order (`RangeIndex`, `OrderedValues`);
  - the intersection of index results (`IndexIntersection`).
- **Query algebra** over the `Condition` tree and JSON values
  - extraction of the MATCH query and the metadata filter (`Extraction`);
  - `similarity() OR metadata` splitting and merging (`UnionQuery`);
  - record-level WHERE evaluation with its graph cache (`RecordWhere`);
  - JOIN (`Join`);
  - ORDER BY (`JsonOrdering`, `Sorting`);
  - GROUP BY with HAVING (`GroupedAggregation`, `Grouping`);
  - the MATCH executor's pure parts, its WHERE evaluation and its RETURN aggregations (`MatchExec`, `MatchWhere`, `AggregationCall`, `ReturnAgg`).
- **Traversal**
  - the sequential BFS/DFS, merge and deduplication of the parallel traverser (`ParallelTraversal`);
  - the sharded traverser (`ShardedTraversal`);
  - the trigram accelerator (`Trigrams`).
- **Metrics**
  - retrieval quality (`Retrieval`);
  - the slow-query logger and query histogram (`QueryDiagnostics`);
  - operational counters (`Operational`);
  - graph metrics and histograms (`GraphMetrics`, `Histograms`);
  - guard-rail counters (`Guardrails`);
  - the automatic reindexing state machine (`AutoReindex`).

Shared vocabulary lives in `Wrappers` (`Option`, `Result`, orderings, integer widths), `Seqs` (list helpers), `Text` (character classes and scanning), and `Json`, `VelesQL` and `Points` in json.dfy. Those are the JSON value, the WHERE tree and the search result.

Host facilities are parameters of the functions that use them. These are:

- the raw VelesQL parser;
- the payload filter engine;
- graph-match anchor computation;
- hashing;
- JSON text rendering;
- CRC input bytes;
- path resolution;
- the clock;
- vector metrics.

A few main functions carry no `ensures` of their own, or only a small one, because what they compute is best stated against an independent definition. Their meaning is in the lemma rows that follow them in the table: `LegacyQuery.NormalizeLegacyQuery` (the `FusionRewrite…` and `NormalizeWithoutLegacySyntax` rows), `LegacyQuery.LikeMatch` (`LikeAgrees`, `LiteralPatternMatchesItself`, `AnyRunMatchesAll`), `Cart.Search` and `Cart.CollectAll` (the `CartProofs` rows), `EdgeStore.RemoveNodeEdges` (the `RemoveNodeEdges…` rows) and `MatchExec.ProjectProperties` (`ProjectPropertiesSpec`).

A routine whose source has a defect appears twice. The member named after the routine models the evidently intended behaviour, and is the one the rest of the model uses. Its `…AsWritten` twin models the code as written. A lemma relates the two; see "## Findings".

## Model

| member | source | states |
|---|---|---|
| WalCodec.CrcUpdateAppend | crates/velesdb-core/src/storage/log_payload.rs:49-75 | the table-driven CRC-32 loop can be split anywhere: checksumming `a + b` continues from the checksum of `a` |
| WalCodec.Le | crates/velesdb-core/src/storage/log_payload.rs:456-459 | `to_le_bytes` of an n-byte integer has n bytes and `from_le_bytes` reads back the same number |
| WalCodec.LeU64 | crates/velesdb-core/src/storage/log_payload.rs:458 | an id's 8 little-endian bytes read back as the id |
| WalCodec.LeU32 | crates/velesdb-core/src/storage/log_payload.rs:454-459 | a payload length's 4 little-endian bytes read back as the length |
| WalCodec.LeValueBounds | crates/velesdb-core/src/storage/log_payload.rs:176-185 | any 8 bytes decode to a `u64` and any 4 bytes to a `u32` |
| WalCodec.StoreBody | crates/velesdb-core/src/storage/log_payload.rs:456-460 | the CRC of a store record covers `1 + 8 + 4 + N` bytes: marker, id, length and data |
| WalCodec.OpRecord | crates/velesdb-core/src/storage/log_payload.rs:463-516 | a store record occupies `17 + N` bytes and a delete record 13 |
| WalCodec.EncodeOps | crates/velesdb-core/src/storage/log_payload.rs:441-524 | the WAL written by a sequence of stores and deletes is as long as their records together |
| WalCodec.ReadRecord | crates/velesdb-core/src/storage/log_payload.rs:171-265 | reading a store record moves past it without leaving the file, and a delete record lies wholly inside the file |
| WalCodec.StoreRecordLayout | crates/velesdb-core/src/storage/log_payload.rs:463-468 | the marker, id, length, data and CRC fields sit at offsets 0, 1, 9, 13 and `13 + N` of a store record |
| WalCodec.DeleteRecordLayout | crates/velesdb-core/src/storage/log_payload.rs:507-516 | the marker, id and CRC fields sit at offsets 0, 1 and 9 of a delete record |
| WalCodec.ReadStoreRecord | crates/velesdb-core/src/storage/log_payload.rs:184-229 | a store record written by `store` is read back by replay with its id, and replay continues after its CRC |
| WalCodec.ReadDeleteRecord | crates/velesdb-core/src/storage/log_payload.rs:230-254 | a delete record written by `delete` is read back by replay with its id |
| WalCodec.ReadRecordAt | crates/velesdb-core/src/storage/log_payload.rs:171-265 | the record of any valid operation reads back as that operation |
| WalCodec.ReplayParsed | crates/velesdb-core/src/storage/log_payload.rs:155-269 | replay applies every record that reads back, in order, and carries on after the last one |
| WalCodec.ReplayHead | crates/velesdb-core/src/storage/log_payload.rs:171-265 | one turn of the replay loop applies the first record and moves to the next one |
| WalCodec.EncodedParses | crates/velesdb-core/src/storage/log_payload.rs:171-265 | the WAL written by valid operations reads back, record by record, as those operations |
| WalCodec.EncodedHead | crates/velesdb-core/src/storage/log_payload.rs:171-265 | the first record of a written WAL reads back as its operation, and the rest of the WAL follows it |
| WalCodec.ReplayThrough | crates/velesdb-core/src/storage/log_payload.rs:155-269 | replaying over the records of valid operations applies them and continues with what follows |
| WalCodec.ReplayEncoded | crates/velesdb-core/src/storage/log_payload.rs:155-269 | replaying a WAL that ends with the records of valid operations applies exactly those operations: the index maps each stored id to the offset of its length field and forgets deleted ids |
| WalCodec.ReplayStopsAt | crates/velesdb-core/src/storage/log_payload.rs:172-264 | a tail too short for a marker and id, or an unknown marker, stops replay without an error and keeps the index built so far |
| WalCodec.ReplayFailsAt | crates/velesdb-core/src/storage/log_payload.rs:186-200 | a store record whose marker and id are present but whose 4-byte length field is cut off by the end of the file, or whose payload runs past it, makes replay fail with an unexpected end of file |
| WalCodec.ReplayStopsOnBadChecksum | crates/velesdb-core/src/storage/log_payload.rs:204-252 | a missing or mismatched CRC, on a store or a delete record, stops replay without an error and keeps the index built so far |
| WalCodec.ReplayAfterPrefix | crates/velesdb-core/src/storage/log_payload.rs:155-269 | a replay from the start of the WAL continues, after intact records, from the index they build |
| WalCodec.ReplayKeepsPrefixBeforeTornTail | crates/velesdb-core/src/storage/log_payload.rs:152-264 | a torn or unknown tail after intact records leaves exactly the index of those records |
| WalCodec.ReplayKeepsPrefixBeforeBadChecksum | crates/velesdb-core/src/storage/log_payload.rs:152-252 | a record with a cut-off or wrong CRC after intact records leaves exactly the index of those records |
| WalCodec.ReplayFailsOnTruncatedPayload | crates/velesdb-core/src/storage/log_payload.rs:186-200 | after intact records, a store record cut off inside its header length field or its payload is an unexpected-end-of-file error and not a stop |
| WalCodec.EncodeOpsAppend | crates/velesdb-core/src/storage/log_payload.rs:441-524 | the WAL of `a + b` is the WAL of `a` followed by that of `b` |
| WalCodec.ApplyOpsAppend | crates/velesdb-core/src/storage/log_payload.rs:155-269 | applying `a + b` is applying `a` and then `b` from where the records of `a` end |
| WalCodec.EncodeEntries | crates/velesdb-core/src/storage/log_payload.rs:400-404 | every snapshot entry takes 16 bytes |
| WalCodec.SnapshotBody | crates/velesdb-core/src/storage/log_payload.rs:388-404 | the part of a snapshot the CRC covers is the 21-byte header followed by 16 bytes per entry |
| WalCodec.SnapshotBytes | crates/velesdb-core/src/storage/log_payload.rs:380-410 | a snapshot of n entries is `25 + 16 * n` bytes long |
| WalCodec.LoadSnapshotChecks | crates/velesdb-core/src/storage/log_payload.rs:274-345 | `load_snapshot` reports a missing file, a file under 25 bytes, a wrong magic or version, an entry count larger than the file can hold, a size other than `25 + 16 * count` and a CRC mismatch, and succeeds exactly when none applies |
| WalCodec.InsertAll | crates/velesdb-core/src/storage/log_payload.rs:348-367 | inserting the listed entries leaves every listed key mapped to its value and every other key as it was |
| WalCodec.DecodeEncodedEntries | crates/velesdb-core/src/storage/log_payload.rs:348-404 | reading back the entries `create_snapshot` wrote inserts exactly the listed keys with their offsets |
| WalCodec.LoadWellFormed | crates/velesdb-core/src/storage/log_payload.rs:274-370 | a file that passes every check loads as its decoded entries and the WAL position of its header |
| WalCodec.InsertAllRebuilds | crates/velesdb-core/src/storage/log_payload.rs:348-367 | inserting every key of an index into an empty map rebuilds that index |
| WalCodec.SnapshotRoundTrip | crates/velesdb-core/src/storage/log_payload.rs:274-410 | loading the bytes `create_snapshot` writes gives back the same id-to-offset map and WAL position, whatever order the entries were written in |
| WalCodec.Store | crates/velesdb-core/src/storage/log_payload.rs:441-477 | `store` fails only on a payload longer than `u32::MAX`; otherwise it maps the id to the offset of its length field, keeps every other id, grows the WAL and the write position by `17 + N` and leaves the snapshot position alone |
| WalCodec.Delete | crates/velesdb-core/src/storage/log_payload.rs:503-524 | `delete` forgets the id and nothing else, grows the WAL by 13 bytes, and advances the write position by 13 unless that wraps |
| WalCodec.ShouldCreateSnapshot | crates/velesdb-core/src/storage/log_payload.rs:428-439 | a snapshot is due exactly when the WAL has grown by 10 MiB since the last one; the saturating subtraction never makes it due early |
| WalCodec.CreateSnapshot | crates/velesdb-core/src/storage/log_payload.rs:380-427 | the snapshot written loads back as the current index at the WAL's current length, which becomes the last snapshot position |
| WalCodec.Recover | crates/velesdb-core/src/storage/log_payload.rs:107-153 | without a valid snapshot, start-up replays the whole WAL onto an empty index, passes on its I/O error, and records snapshot position 0 |
| WalCodec.EmptyStoreConsistent | crates/velesdb-core/src/storage/log_payload.rs:107-153 | a new store over an empty WAL keeps the WAL and the index in step |
| WalCodec.ApplyOpsSnoc | crates/velesdb-core/src/storage/log_payload.rs:155-269 | a last operation is applied last, at the end of the earlier records |
| WalCodec.StoreKeepsConsistent | crates/velesdb-core/src/storage/log_payload.rs:441-477 | a `store` within the size limit succeeds and keeps the WAL and the index in step |
| WalCodec.DeleteKeepsConsistent | crates/velesdb-core/src/storage/log_payload.rs:503-524 | a `delete` that does not wrap the write position keeps the WAL and the index in step |
| WalCodec.FullReplayRebuildsIndex | crates/velesdb-core/src/storage/log_payload.rs:107-269 | replaying the whole WAL of a consistent store rebuilds exactly its in-memory index |
| WalCodec.WalExtends | crates/velesdb-core/src/storage/log_payload.rs:441-524 | the WAL only grows: a later consistent state's WAL is the earlier one followed by the records of the later operations |
| WalCodec.IndexExtends | crates/velesdb-core/src/storage/log_payload.rs:441-524 | a later consistent state's index is the earlier index with the later operations applied from the end of the earlier WAL |
| WalCodec.RecoverUsesSnapshot | crates/velesdb-core/src/storage/log_payload.rs:129-134 | with a valid snapshot, start-up replays the WAL from the snapshot's position onto the snapshot's index and remembers that position |
| WalCodec.RecoverFromSnapshot | crates/velesdb-core/src/storage/log_payload.rs:107-427 | crash recovery from a snapshot taken at an earlier consistent state, plus the operations after it, gives the index the store had at the crash |
| Cart.NewLeaf | crates/velesdb-core/src/collection/graph/cart/node.rs:53-61 | a fresh leaf is well-formed and not empty |
| Cart.Step | crates/velesdb-core/src/collection/graph/cart/node.rs:75-141 | the child an internal node descends into for a key byte is well-formed and holds at least one value |
| Cart.LeafInsert | crates/velesdb-core/src/collection/graph/cart/node.rs:144-155 | the leaf stays strictly sorted, holds exactly its old values plus the new one, and reports true exactly when the value was absent |
| Cart.LeafRemove | crates/velesdb-core/src/collection/graph/cart/node.rs:282-290 | the leaf stays strictly sorted, loses exactly the removed value, and reports true exactly when the value was present |
| Cart.SortByKey | crates/velesdb-core/src/collection/graph/cart/node.rs:437-438 | sorting the Node4 slots by key is a permutation of them |
| Cart.InsertSlot | crates/velesdb-core/src/collection/graph/cart/node.rs:197-216 | the Node16 shift-and-insert keeps the keys strictly sorted and adds exactly the new slot |
| Cart.Grow16Slots | crates/velesdb-core/src/collection/graph/cart/node.rs:426-450 | growing a Node4 keeps exactly its (key, child) pairs and sorts them by key |
| Cart.Grow48Index | crates/velesdb-core/src/collection/graph/cart/node.rs:457-476 | the Node48 index built on growth maps each present byte to a distinct occupied slot and names every slot |
| Cart.Grow48Children | crates/velesdb-core/src/collection/graph/cart/node.rs:457-476 | after growth to Node48 exactly the first `num_children` slots are occupied, with the old children in order |
| Cart.Grow16Steps | crates/velesdb-core/src/collection/graph/cart/node.rs:426-450 | growing to Node16 files the same child under every key byte |
| Cart.Grow48Steps | crates/velesdb-core/src/collection/graph/cart/node.rs:457-476 | growing to Node48 files the same child under every key byte |
| Cart.Grow256Steps | crates/velesdb-core/src/collection/graph/cart/node.rs:483-503 | growing to Node256 files the same child under every key byte |
| Cart.Insert | crates/velesdb-core/src/collection/graph/cart/node.rs:142-277 | insertion keeps the node well-formed, changes nothing when it reports false, reports true when the key byte has no child, and reports false on an internal node given an exhausted key |
| Cart.Insert4 | crates/velesdb-core/src/collection/graph/cart/node.rs:158-189 | the Node4 arm adds a child under a missing byte, growing to Node16 when full, and keeps the node well-formed |
| Cart.Insert16 | crates/velesdb-core/src/collection/graph/cart/node.rs:191-226 | the Node16 arm adds a child under a missing byte in sorted position, growing to Node48 when full |
| Cart.Insert48 | crates/velesdb-core/src/collection/graph/cart/node.rs:227-258 | the Node48 arm, corrected: a new child goes into the first free slot, so no live child is overwritten and the node stays well-formed |
| Cart.Insert48AsWritten | crates/velesdb-core/src/collection/graph/cart/node.rs:245-251 | the Node48 arm as written files the new leaf at slot `num_children` under the new byte, whatever that slot holds |
| Cart.Insert48Agrees | crates/velesdb-core/src/collection/graph/cart/node.rs:245-251 | while a Node48's children fill exactly its first `num_children` slots, the written and the corrected insertion give the same node |
| Cart.Insert256 | crates/velesdb-core/src/collection/graph/cart/node.rs:259-276 | the Node256 arm recurses into an existing child or files a new leaf, keeping the node well-formed |
| Cart.Remove | crates/velesdb-core/src/collection/graph/cart/node.rs:280-386 | removal keeps the node well-formed and of the same kind, changes nothing when it reports false, and finds nothing under an exhausted key on an internal node |
| Cart.RemoveFromSlots | crates/velesdb-core/src/collection/graph/cart/node.rs:291-341 | the Node4 and Node16 arms drop an emptied child's slot, keeping keys distinct (and sorted when they were) and every remaining child non-empty |
| Cart.Remove48 | crates/velesdb-core/src/collection/graph/cart/node.rs:342-363 | the Node48 arm frees an emptied child's slot and unmaps its byte, keeping the node well-formed |
| Cart.Remove256 | crates/velesdb-core/src/collection/graph/cart/node.rs:364-384 | the Node256 arm clears an emptied child, keeping the node well-formed |
| Cart.CollectFromUnfold | crates/velesdb-core/src/collection/graph/cart/node.rs:389-422 | `collect_all` visits the scanned children in order and concatenates their values |
| CartProofs.InsertKeeps | crates/velesdb-core/src/collection/graph/cart/node.rs:142-277 | insertion keeps every value search found before and adds no value but the inserted one |
| CartProofs.InsertFinds | crates/velesdb-core/src/collection/graph/cart/node.rs:142-277 | after insertion along a key that reaches a leaf or a missing child, search finds the value along that key |
| CartProofs.InsertReportsNew | crates/velesdb-core/src/collection/graph/cart/node.rs:142-277 | insertion reports true exactly when the key reaches a leaf or a missing child and search did not find the value there |
| CartProofs.RemoveKeeps | crates/velesdb-core/src/collection/graph/cart/node.rs:280-386 | removal adds nothing and keeps every other value search found |
| CartProofs.RemoveDeletes | crates/velesdb-core/src/collection/graph/cart/node.rs:280-386 | after removal search no longer finds the value along the key |
| CartProofs.RemoveReportsFound | crates/velesdb-core/src/collection/graph/cart/node.rs:280-386 | removal reports true exactly when search found the value |
| CartProofs.EmptyFindsNothing | crates/velesdb-core/src/collection/graph/cart/node.rs:63-72 | a well-formed node that `is_empty` reports empty holds no value search can find |
| CartProofs.CollectComplete | crates/velesdb-core/src/collection/graph/cart/node.rs:389-422 | `collect_all` lists every value search finds |
| CartProofs.CollectSound | crates/velesdb-core/src/collection/graph/cart/node.rs:389-422 | every value `collect_all` lists is found by search along some key |
| CartProofs.Node48InsertLosesValue | crates/velesdb-core/src/collection/graph/cart/node.rs:245-251 | on a Node48 whose slot 0 was freed by a removal, the written insertion of 9 overwrites the child holding 7, reports success, and leaves two bytes naming one slot |
| CartProofs.Node48InsertKeepsValue | crates/velesdb-core/src/collection/graph/cart/node.rs:227-258 | on the same node the corrected insertion keeps 7 under its byte and adds 9 under the new one |
| CompressedArt.BigEndianRoundTrip | crates/velesdb-core/src/collection/graph/cart/mod.rs:102 | the eight big-endian key bytes of a `u64` decode back to the value, so distinct values get distinct keys |
| CompressedArt.KeyOf | crates/velesdb-core/src/collection/graph/cart/mod.rs:102 | a value's key has eight bytes |
| CompressedArt.LenCountsValues | crates/velesdb-core/src/collection/graph/cart/mod.rs:74-84 | `len` equals the number of distinct values the tree holds, so `is_empty` means no values |
| CompressedArt.Empty | crates/velesdb-core/src/collection/graph/cart/mod.rs:68-72 | a new tree holds no values and has length 0 |
| CompressedArt.Contains | crates/velesdb-core/src/collection/graph/cart/mod.rs:113-123 | `contains` is true exactly for the values the tree holds |
| CompressedArt.Insert | crates/velesdb-core/src/collection/graph/cart/mod.rs:86-111 | insertion adds exactly the value, reports true exactly when it was absent, and leaves the tree unchanged otherwise |
| CompressedArt.Remove | crates/velesdb-core/src/collection/graph/cart/mod.rs:125-145 | removal takes away exactly the value, reports true exactly when it was present, and leaves the tree unchanged otherwise |
| CompressedArt.Scan | crates/velesdb-core/src/collection/graph/cart/mod.rs:147-155 | `scan` lists every held value once, in ascending order, and has `len` entries |
| CompressedArt.InsertAll | crates/velesdb-core/src/collection/graph/cart/mod.rs:180-186 | inserting a list of targets adds exactly its elements to the tree |
| CompressedArt.FromTargets | crates/velesdb-core/src/collection/graph/cart/mod.rs:178-186 | `from_targets` holds exactly the given targets, repeats collapsed |
| DegreeRouter.VecInsert | crates/velesdb-core/src/collection/graph/degree_router/mod.rs:93-97 | the vector gains the target exactly when it lacked it, so it stays duplicate-free |
| DegreeRouter.VecInsertIdempotent | crates/velesdb-core/src/collection/graph/degree_router/mod.rs:93-97 | inserting the same target twice is inserting it once |
| DegreeRouter.Position | crates/velesdb-core/src/collection/graph/degree_router/mod.rs:100 | `position` finds the first index holding the target, or reports none exactly when it is absent |
| DegreeRouter.SwapRemove | crates/velesdb-core/src/collection/graph/degree_router/mod.rs:101 | `swap_remove` moves the last element into the freed position and keeps the rest in place |
| DegreeRouter.VecRemove | crates/velesdb-core/src/collection/graph/degree_router/mod.rs:99-106 | removal reports true exactly when the target was present, shortens the vector by one then, and leaves it unchanged otherwise |
| DegreeRouter.VecRemoveExact | crates/velesdb-core/src/collection/graph/degree_router/mod.rs:99-106 | on a duplicate-free vector removal takes out exactly the target, so `contains` is false afterwards |
| DegreeRouter.HashInsert | crates/velesdb-core/src/collection/graph/degree_router/mod.rs:159-161 | the hash-set index holds exactly its old targets plus the new one |
| DegreeRouter.HashRemove | crates/velesdb-core/src/collection/graph/degree_router/mod.rs:163-165 | the hash-set index loses exactly the target and reports whether it held it |
| DegreeRouter.StorageInsert | crates/velesdb-core/src/collection/graph/degree_router/mod.rs:233-239 | inserting into any storage adds exactly the target and keeps the storage kind |
| DegreeRouter.StorageRemove | crates/velesdb-core/src/collection/graph/degree_router/mod.rs:241-247 | removing from any storage takes away exactly the target, reports whether it was there, and keeps the storage kind |
| DegreeRouter.StorageContains | crates/velesdb-core/src/collection/graph/degree_router/mod.rs:249-255 | `contains` is true exactly for the stored targets, whatever the storage kind |
| DegreeRouter.StorageLen | crates/velesdb-core/src/collection/graph/degree_router/mod.rs:265-271 | `len` is the number of distinct stored targets, whatever the storage kind |
| DegreeRouter.StorageTargets | crates/velesdb-core/src/collection/graph/degree_router/mod.rs:257-263 | `targets` lists every stored target once |
| DegreeRouter.PromoteToHighDegree | crates/velesdb-core/src/collection/graph/degree_router/mod.rs:216-221 | promotion turns a vector into a hash set of the same targets and leaves other storage alone |
| DegreeRouter.PromoteToCart | crates/velesdb-core/src/collection/graph/degree_router/mod.rs:223-229 | promotion turns a hash set into a C-ART of the same targets and leaves other storage alone |
| DegreeRouter.WithThreshold | crates/velesdb-core/src/collection/graph/degree_router/mod.rs:292-300 | a router starts with a threshold of at least 1, an empty vector and no promotions |
| DegreeRouter.NewRouter | crates/velesdb-core/src/collection/graph/degree_router/mod.rs:286-290 | the default router uses threshold 100 and holds nothing |
| DegreeRouter.Promote | crates/velesdb-core/src/collection/graph/degree_router/mod.rs:309-320 | the promotion checks keep the targets, never demote, count exactly the storage changes, and leave a vector holding more than the threshold promoted |
| DegreeRouter.RouterInsert | crates/velesdb-core/src/collection/graph/degree_router/mod.rs:307-321 | insertion, corrected, adds exactly the target, keeps the threshold, never demotes, and counts exactly the promotions that change the storage |
| DegreeRouter.RouterRemove | crates/velesdb-core/src/collection/graph/degree_router/mod.rs:323-326 | removal takes away exactly the target, reports whether it was there, and never demotes or counts a promotion |
| DegreeRouter.RouterKeepsCount | crates/velesdb-core/src/collection/graph/degree_router/mod.rs:358-362 | under insertion and removal `promotion_count` stays equal to the number of storage changes so far |
| DegreeRouter.RouterInsertAsWritten | crates/velesdb-core/src/collection/graph/degree_router/mod.rs:307-321 | insertion as written adds exactly the target and keeps the threshold; the count rises by one for each of the two checks that fires (a vector past the threshold; anything but a C-ART past 1000 targets); the storage is the corrected insertion's, and the count exceeds the corrected one by one exactly when a vector passes 1000 targets without passing the threshold |
| DegreeRouter.RouterInsertAgrees | crates/velesdb-core/src/collection/graph/degree_router/mod.rs:307-321 | with a threshold of at most 1000, insertion as written and corrected insertion give the same router |
| DegreeRouter.PromotionCountWithoutPromotion | crates/velesdb-core/src/collection/graph/degree_router/mod.rs:316-320 | with threshold 2000, a vector reaching 1001 targets stays a vector while the written count rises, and re-inserting a present target raises it again |
| DegreeRouter.PromotionCountCorrected | crates/velesdb-core/src/collection/graph/degree_router/mod.rs:307-321 | on the same router the corrected insertion counts no promotion |
| EdgeStore.Empty | crates/velesdb-core/src/graph/edge_store.rs:35-56 | a new store, whatever the capacity hints, holds no nodes or edges and its indices are exact |
| EdgeStore.AddNode | crates/velesdb-core/src/graph/edge_store.rs:64-71 | adding a node whose id is taken fails with `NodeExists` for that id; otherwise the node is stored under its id and nothing else changes |
| EdgeStore.GetNode | crates/velesdb-core/src/graph/edge_store.rs:73-77 | a node is returned exactly when one is stored under the id |
| EdgeStore.NodesByLabel | crates/velesdb-core/src/graph/edge_store.rs:116-120 | the label query returns exactly the stored nodes with that label |
| EdgeStore.RemoveNode | crates/velesdb-core/src/graph/edge_store.rs:85-90 | removing an absent node returns nothing and changes nothing; otherwise it returns the node and the store no longer holds it |
| EdgeStore.AddEdge | crates/velesdb-core/src/graph/edge_store.rs:131-151 | adding an edge whose id is taken fails with `EdgeExists`; otherwise the edge is stored, the nodes are untouched, and its id is appended to its source, target, label and source-label lists |
| EdgeStore.GetEdge | crates/velesdb-core/src/graph/edge_store.rs:153-157 | an edge is returned exactly when one is stored under the id |
| EdgeStore.EdgesOf | crates/velesdb-core/src/graph/edge_store.rs:161-195 | resolving a list of ids returns stored edges only, at most one per id |
| EdgeStore.RemoveEdge | crates/velesdb-core/src/graph/edge_store.rs:231-252 | removing an absent edge returns nothing and changes nothing; otherwise it returns the edge, which leaves the map while the nodes stay |
| EdgeStore.Clear | crates/velesdb-core/src/graph/edge_store.rs:254-262 | after `clear` the store and all four indices are empty, and the indices are exact |
| EdgeStore.OutStep | crates/velesdb-core/src/graph/edge_store.rs:270-284 | each turn of the cascade's first loop keeps the loop invariant on the edges still leaving the node |
| EdgeStore.InStep | crates/velesdb-core/src/graph/edge_store.rs:286-300 | each turn of the cascade's second loop keeps the loop invariant on the edges still entering the node |
| EdgeStore.DropOutgoingKeeps | crates/velesdb-core/src/graph/edge_store.rs:270-284 | the cascade's first loop drops only edges on the node's outgoing list |
| EdgeStore.DropIncomingKeeps | crates/velesdb-core/src/graph/edge_store.rs:286-300 | the cascade's second loop drops only edges on the node's incoming list |
| EdgeStore.RemoveNodeEdgesIndexed | crates/velesdb-core/src/graph/edge_store.rs:264-300 | the cascade delete keeps the four indices exact |
| EdgeStore.RemoveNodeEdgesAvoids | crates/velesdb-core/src/graph/edge_store.rs:264-300 | after the cascade no stored edge starts or ends at the node |
| EdgeStore.RemoveNodeEdgesKeeps | crates/velesdb-core/src/graph/edge_store.rs:264-300 | the cascade keeps, unchanged, every edge that does not touch the node and adds none |
| EdgeStore.RemoveNodeEdgesDropsIncident | crates/velesdb-core/src/graph/edge_store.rs:264-300 | the cascade keeps exactly the edges with neither end at the node |
| EdgeStore.RemoveNodeCascades | crates/velesdb-core/src/graph/edge_store.rs:85-90 | removing a stored node removes it with every edge at either end and keeps the indices exact |
| EdgeStore.AddEdgeKeepsIndexed | crates/velesdb-core/src/graph/edge_store.rs:131-151 | adding a new edge keeps the four indices exact |
| EdgeStore.RemoveEdgeKeepsIndexed | crates/velesdb-core/src/graph/edge_store.rs:231-252 | removing an edge keeps the four indices exact |
| EdgeStore.RemoveEdgeUnlists | crates/velesdb-core/src/graph/edge_store.rs:231-252 | after removal the edge id is on no list of any index |
| EdgeStore.OutDegreeCountsEdges | crates/velesdb-core/src/graph/edge_store.rs:219-223 | `out_degree` is the number of stored edges leaving the node |
| EdgeStore.InDegreeCountsEdges | crates/velesdb-core/src/graph/edge_store.rs:225-229 | `in_degree` is the number of stored edges entering the node |
| EdgeStore.GetOutgoingLeaves | crates/velesdb-core/src/graph/edge_store.rs:159-166 | `get_outgoing` returns `out_degree` stored edges, each leaving the node |
| EdgeStore.GetIncomingEnters | crates/velesdb-core/src/graph/edge_store.rs:168-175 | `get_incoming` returns `in_degree` stored edges, each entering the node |
| EdgeStore.GetOutgoingByLabelMatches | crates/velesdb-core/src/graph/edge_store.rs:177-184 | `get_outgoing_by_label` returns the stored edges leaving the node with that label, one per edge |
| EdgeStore.GetEdgesByLabelMatches | crates/velesdb-core/src/graph/edge_store.rs:186-193 | `get_edges_by_label` returns the stored edges with that label, one per edge |
| Extraction.ExtractMatchQuery | crates/velesdb-core/src/collection/search/query/extraction.rs:11-21 | the query found is that of the first Match leaf, left to right, among the leaves reachable through And and Group only |
| Extraction.FirstMatchQuery | crates/velesdb-core/src/collection/search/query/extraction.rs:15-17 | a query is found exactly when some leaf is a Match, and it is that leaf's query |
| Extraction.ExtractMetadataFilter | crates/velesdb-core/src/collection/search/query/extraction.rs:125-171 | the filter that survives holds no Similarity, VectorSearch or VectorFusedSearch leaf and only leaves of the input |
| Extraction.ExtractMetadataFilterIdentity | crates/velesdb-core/src/collection/search/query/extraction.rs:125-171 | the extraction returns the condition unchanged exactly when it has no vector leaf |
| Extraction.NumbersOf | crates/velesdb-core/src/collection/search/query/extraction.rs:190-199 | a parameter array converts exactly when every element is a number, element by element |
| Extraction.ResolveVector | crates/velesdb-core/src/collection/search/query/extraction.rs:173-208 | a literal vector resolves to itself; a missing parameter, a non-array or a non-number element is an error; otherwise the array's numbers |
| GraphMetrics.LatencyBucket | crates/velesdb-core/src/collection/graph/metrics/mod.rs:71-75 | the bucket is the first whose bound exceeds the milliseconds, bucket 9 exactly from 10000 ms on |
| GraphMetrics.BucketFrom | crates/velesdb-core/src/collection/graph/metrics/mod.rs:71-75 | the scan from a bucket on stops at the first bound above the value, or at 9 |
| GraphMetrics.CapU64 | crates/velesdb-core/src/collection/graph/metrics/mod.rs:55-70 | a `u128` duration is kept when it fits a `u64` and capped at `u64::MAX` otherwise |
| GraphMetrics.NewHistogram | crates/velesdb-core/src/collection/graph/metrics/mod.rs:43-46 | a new histogram has no observations, a zero sum and empty buckets |
| GraphMetrics.Observe | crates/velesdb-core/src/collection/graph/metrics/mod.rs:54-77 | an observation keeps every counter within `u64` |
| GraphMetrics.ObserveSpec | crates/velesdb-core/src/collection/graph/metrics/mod.rs:54-77 | below `u64::MAX` observations one more observation raises the count by one, keeps the buckets adding up to it, raises the exported running totals exactly from its bucket on, and adds its nanoseconds to the sum when that fits |
| GraphMetrics.AvgNs | crates/velesdb-core/src/collection/graph/metrics/mod.rs:91-101 | the average is 0 with no observations and otherwise the sum divided by the count |
| GraphMetrics.ExportedBuckets | crates/velesdb-core/src/collection/graph/metrics/mod.rs:352-391 | the exported bucket lines never decrease and the `+Inf` line equals the count |
| GraphMetrics.NewMetrics | crates/velesdb-core/src/collection/graph/metrics/mod.rs:171-178 | new graph metrics are all zero and consistent |
| GraphMetrics.Inc | crates/velesdb-core/src/collection/graph/metrics/mod.rs:182-186 | `fetch_add(1)` adds one below `u64::MAX` and stays within `u64` |
| GraphMetrics.RecordNodeInsert | crates/velesdb-core/src/collection/graph/metrics/mod.rs:181-185 | a node insertion raises the insertion total and the node count and touches nothing else |
| GraphMetrics.RecordNodeDelete | crates/velesdb-core/src/collection/graph/metrics/mod.rs:187-205 | a node deletion raises the deletion total and lowers the node count, which stays at 0 rather than wrapping, touching nothing else |
| GraphMetrics.RecordEdgeInsert | crates/velesdb-core/src/collection/graph/metrics/mod.rs:223-228 | an edge insertion raises the insertion total and the edge count and observes the latency in the insertion histogram only |
| GraphMetrics.RecordEdgeDelete | crates/velesdb-core/src/collection/graph/metrics/mod.rs:230-248 | an edge deletion raises the deletion total, lowers the edge count with saturation, and observes the latency in the deletion histogram only |
| GraphMetrics.RecordTraversal | crates/velesdb-core/src/collection/graph/metrics/mod.rs:272-278 | a traversal raises the traversal total, adds its visited nodes, and observes the latency in the traversal histogram only |
| GraphMetrics.RecordQuery | crates/velesdb-core/src/collection/graph/metrics/mod.rs:296-299 | a query only observes its latency in the query histogram |
| GraphMetrics.Reset | crates/velesdb-core/src/collection/graph/metrics/mod.rs:392-406 | `reset` returns every counter and histogram to the state of new metrics |
| GraphMetrics.ApplyCounters | crates/velesdb-core/src/collection/graph/metrics/mod.rs:180-278 | each call moves the node and edge counters only when it is of the counter's kind |
| GraphMetrics.RunNodeTotals | crates/velesdb-core/src/collection/graph/metrics/mod.rs:180-205 | over any sequence of calls the node insertion and deletion totals count their calls |
| GraphMetrics.RunNodeGauge | crates/velesdb-core/src/collection/graph/metrics/mod.rs:187-205 | the saturating node count never exceeds the insertions, and count plus deletions is at least the insertions |
| GraphMetrics.RunEdgeTotals | crates/velesdb-core/src/collection/graph/metrics/mod.rs:222-248 | over any sequence of calls the edge insertion and deletion totals count their calls |
| GraphMetrics.RunEdgeGauge | crates/velesdb-core/src/collection/graph/metrics/mod.rs:230-248 | the saturating edge count obeys the same bounds as the node count |
| GraphMetrics.RunTraversalHistogram | crates/velesdb-core/src/collection/graph/metrics/mod.rs:272-278 | the traversal histogram's buckets add up to its count, which equals the number of traversals and the traversal total |
| Histograms.Cumulative | crates/velesdb-core/src/collection/graph/metrics/mod.rs:359-368 | the exported running total `j` counts every observation in buckets `0..=j` |
| Histograms.CumulativeShape | crates/velesdb-core/src/collection/graph/metrics/mod.rs:359-368 | the running totals never decrease and the last equals the total of the buckets |
| Histograms.CumulativeIncrement | crates/velesdb-core/src/collection/graph/metrics/mod.rs:71-76 | one more observation in bucket `i` raises exactly the running totals from `i` on, each by one |
| GroupedAggregation.GetAggregateValue | crates/velesdb-core/src/collection/search/query/aggregation/grouped.rs:330-352 | `COUNT(*)` is the group's row count, a column aggregate is the value recorded for that column and absent when none was, and any other wildcard aggregate is absent |
| GroupedAggregation.RelativeEpsilon | crates/velesdb-core/src/collection/search/query/aggregation/grouped.rs:367-369 | the equality tolerance is `f64::EPSILON` scaled by the larger magnitude and never below `f64::EPSILON` |
| GroupedAggregation.Threshold | crates/velesdb-core/src/collection/search/query/aggregation/grouped.rs:360-364 | only integer and float literals are numeric thresholds |
| GroupedAggregation.CompareValues | crates/velesdb-core/src/collection/search/query/aggregation/grouped.rs:354-378 | a missing aggregate or a non-numeric threshold never matches; `=` and `!=` compare within the tolerance and the order operators exactly |
| GroupedAggregation.CompareEqNotEq | crates/velesdb-core/src/collection/search/query/aggregation/grouped.rs:371-373 | for a present aggregate and a numeric threshold `=` and `!=` are complementary, and equal values satisfy `=` |
| GroupedAggregation.CompareEqTolerates | crates/velesdb-core/src/collection/search/query/aggregation/grouped.rs:371-376 | `=` holds for values closer than the tolerance while `>=` tells them apart |
| GroupedAggregation.OperatorAt | crates/velesdb-core/src/collection/search/query/aggregation/grouped.rs:315-320 | a connective the clause does not list is AND |
| GroupedAggregation.ConditionValues | crates/velesdb-core/src/collection/search/query/aggregation/grouped.rs:302-312 | there is one truth value per HAVING comparison |
| GroupedAggregation.EvaluateHaving | crates/velesdb-core/src/collection/search/query/aggregation/grouped.rs:293-328 | an empty HAVING keeps every group; otherwise the comparisons are folded from the left with their connectives |
| GroupedAggregation.FoldAllAnd | crates/velesdb-core/src/collection/search/query/aggregation/grouped.rs:309-325 | with only AND connectives the clause holds exactly when every comparison holds |
| GroupedAggregation.FoldAllOr | crates/velesdb-core/src/collection/search/query/aggregation/grouped.rs:309-325 | with only OR connectives the clause holds exactly when some comparison holds |
| GroupedAggregation.FoldLeftToRight | crates/velesdb-core/src/collection/search/query/aggregation/grouped.rs:309-325 | the fold has no precedence, `a OR b AND c` meaning `(a OR b) AND c`, and a missing connective is AND |
| GroupedAggregation.ClampGroupLimit | crates/velesdb-core/src/collection/search/query/aggregation/grouped.rs:393-395 | a requested group limit is clamped into 1 to 1000000 and kept when already inside |
| GroupedAggregation.ExtractMaxGroupsLimit | crates/velesdb-core/src/collection/search/query/aggregation/grouped.rs:380-400 | the limit is the default 10000 without a WITH clause or a usable option, else the first integer `max_groups` or `group_limit` option, clamped |
| GroupedAggregation.GroupWithLimit | crates/velesdb-core/src/collection/search/query/aggregation/grouped.rs:86-95 | grouping fails with the "too many groups" error exactly when the rows have more distinct keys than the limit, and otherwise groups every row under its key |
| GroupedAggregation.CompareRowValues | crates/velesdb-core/src/collection/search/query/aggregation/grouped.rs:252-275 | a missing value sorts first, two numbers compare by value, two strings lexicographically |
| GroupedAggregation.CompareRowValuesAntisymmetric | crates/velesdb-core/src/collection/search/query/aggregation/grouped.rs:252-275 | swapping the operands reverses the comparison, whatever the serialisation used for mixed values |
| GroupedAggregation.JsonToValue | crates/velesdb-core/src/collection/search/query/aggregation/grouped.rs:465-483 | a parameter's JSON value never becomes a placeholder |
| GroupedAggregation.ResolveValue | crates/velesdb-core/src/collection/search/query/aggregation/grouped.rs:458-489 | a placeholder becomes the bound parameter as a literal, or null when unbound; any other value is kept |
| GroupedAggregation.ResolveValueRoundTrip | crates/velesdb-core/src/collection/search/query/aggregation/grouped.rs:458-489 | binding a literal to a name and resolving the placeholder gives the literal back, for integers in the `i64` range |
| GroupedAggregation.ResolveConditionParams | crates/velesdb-core/src/collection/search/query/aggregation/grouped.rs:403-456 | parameter resolution keeps the shape of the condition tree |
| GroupedAggregation.ResolveLeavesNoParameters | crates/velesdb-core/src/collection/search/query/aggregation/grouped.rs:403-456 | after resolution no placeholder is left in comparisons, IN lists or BETWEEN bounds |
| GroupedAggregation.ResolveIdentity | crates/velesdb-core/src/collection/search/query/aggregation/grouped.rs:403-456 | a condition without placeholders is left unchanged |
| GroupedAggregation.ResolveIdempotent | crates/velesdb-core/src/collection/search/query/aggregation/grouped.rs:403-456 | resolving twice is resolving once |
| Guardrails.RecordTraversal | crates/velesdb-core/src/metrics/guardrails.rs:30-51 | one traversal raises the count and adds its nodes and edges, and the maximum depth only rises, to the new depth when that is deeper |
| Guardrails.RunTraversalsMaxDepth | crates/velesdb-core/src/metrics/guardrails.rs:30-51 | after any sequence of traversals the maximum depth is the deepest one recorded (0 with none) and the count is their number |
| Guardrails.AsStr | crates/velesdb-core/src/metrics/guardrails.rs:120-130 | every limit type prints a non-empty label |
| Guardrails.AsStrInjective | crates/velesdb-core/src/metrics/guardrails.rs:120-130 | distinct limit types print distinct labels, so no two counters share an export line |
| Guardrails.RecordLimitExceeded | crates/velesdb-core/src/metrics/guardrails.rs:157-166 | an exceeded limit raises exactly its own counter, the rate limit counting as a rejection, and leaves every other counter unchanged |
| Guardrails.RecordRateLimit | crates/velesdb-core/src/metrics/guardrails.rs:168-175 | a rate-limit decision raises the allowed counter or the rejected one, never both, and nothing else |
| Guardrails.RateLimitHitIsRejection | crates/velesdb-core/src/metrics/guardrails.rs:163 | recording a rate-limit hit and recording a rejected decision have the same effect |
| Guardrails.RunGuardCounts | crates/velesdb-core/src/metrics/guardrails.rs:157-175 | over any sequence of calls each limit counter counts the calls that land in it and the allowed counter counts the allowed decisions |
| QueryDiagnostics.IsSlowSpec | crates/velesdb-core/src/metrics/query.rs:41-78 | the disabled logger calls nothing slow; an enabled logger calls a duration slow from its threshold on, the default from 100 ms; slowness is monotone in the duration |
| QueryDiagnostics.Sanitize | crates/velesdb-core/src/metrics/query.rs:101-135 | the sanitised query is never longer than the input |
| QueryDiagnostics.ScanAppend | crates/velesdb-core/src/metrics/query.rs:106-132 | the character scan composes: a concatenation is scanned by scanning its second part from the state the first part ends in |
| QueryDiagnostics.SanitizeKeepsPlain | crates/velesdb-core/src/metrics/query.rs:101-135 | a query with no quote and no backslash is left as it is |
| QueryDiagnostics.SanitizeHidesLiteral | crates/velesdb-core/src/metrics/query.rs:101-135 | a closed literal, with either quote at either end, becomes one `?`; text before it is kept and text after it is sanitised in turn |
| QueryDiagnostics.SanitizeDropsUnclosed | crates/velesdb-core/src/metrics/query.rs:101-135 | a literal that is never closed hides everything after its opening quote |
| QueryDiagnostics.SanitizeQuery | crates/velesdb-core/src/metrics/query.rs:101-135 | the two-flag character loop computes the sanitised query, never longer than the input |
| QueryDiagnostics.LogIfSlow | crates/velesdb-core/src/metrics/query.rs:80-97 | the sanitised query is logged exactly when the duration is slow |
| QueryDiagnostics.DurationBucket | crates/velesdb-core/src/metrics/query.rs:256-264 | a value goes into the first bucket whose bound reaches it, and into the last one when it exceeds 5 s |
| QueryDiagnostics.BucketFrom | crates/velesdb-core/src/metrics/query.rs:256-264 | the bucket scan from `i` on stops at the first bound that reaches the value, or at the last bucket |
| QueryDiagnostics.Micros | crates/velesdb-core/src/metrics/query.rs:251-254 | the microsecond conversion truncates toward zero and saturates into `u64`, negatives giving 0 |
| QueryDiagnostics.NewDurationHistogram | crates/velesdb-core/src/metrics/query.rs:241-245 | a new histogram is all zero and consistent |
| QueryDiagnostics.Observe | crates/velesdb-core/src/metrics/query.rs:247-265 | an observation keeps every counter within `u64` |
| QueryDiagnostics.ObserveSpec | crates/velesdb-core/src/metrics/query.rs:247-265 | below `u64::MAX` observations one more raises the count by one, keeps the buckets adding up to it, raises the exported running totals exactly from its bucket on, and adds its microseconds to the sum when that fits |
| QueryDiagnostics.ExportedBuckets | crates/velesdb-core/src/metrics/query.rs:269-292 | the exported bucket lines, one per bound, never decrease, and the 5 s line equals the `+Inf` count |
| Operational.Inc | crates/velesdb-core/src/metrics/operational.rs:57-59 | `fetch_add(1)` adds one below `u64::MAX` and stays within `u64` |
| Operational.IncQueries | crates/velesdb-core/src/metrics/operational.rs:56-59 | only the query total rises |
| Operational.IncErrors | crates/velesdb-core/src/metrics/operational.rs:61-64 | only the error count rises |
| Operational.RecordVectorQuery | crates/velesdb-core/src/metrics/operational.rs:66-70 | the total and the vector count rise and nothing else changes |
| Operational.RecordGraphQuery | crates/velesdb-core/src/metrics/operational.rs:72-76 | the total and the graph count rise and nothing else changes |
| Operational.RecordHybridQuery | crates/velesdb-core/src/metrics/operational.rs:78-82 | the total and the hybrid count rise and nothing else changes |
| Operational.IncConnections | crates/velesdb-core/src/metrics/operational.rs:94-97 | exactly one more connection, and nothing else changes |
| Operational.DecConnections | crates/velesdb-core/src/metrics/operational.rs:99-118 | one connection fewer, staying at 0 rather than wrapping, and nothing else changes |
| Operational.IncThenDecConnections | crates/velesdb-core/src/metrics/operational.rs:94-118 | opening and closing a connection restores the gauge |
| Operational.ExportPrometheus | crates/velesdb-core/src/metrics/operational.rs:120-186 | the exported successes are the total less the errors, 0 when the errors exceed the total; every other line prints its counter |
| Operational.RunQueryTotal | crates/velesdb-core/src/metrics/operational.rs:56-82 | over any sequence of calls the query total counts every query call, whatever its kind |
| Operational.RunKindCount | crates/velesdb-core/src/metrics/operational.rs:66-82 | each kind counter counts exactly the calls of its kind |
| Operational.RunErrorCount | crates/velesdb-core/src/metrics/operational.rs:61-64 | the error count counts the error calls, so the exported successes are the query calls less the error calls, saturating at 0 |
| Operational.RunConnections | crates/velesdb-core/src/metrics/operational.rs:94-118 | the connection gauge never exceeds the connects, and gauge plus disconnects is at least the connects |
| AutoReindex.ToU8 | crates/velesdb-core/src/collection/auto_reindex/mod.rs:40-51 | every state is stored as one of the bytes 0 to 3 |
| AutoReindex.FromU8 | crates/velesdb-core/src/collection/auto_reindex/mod.rs:53-62 | bytes 1, 2 and 3 name their states and every other byte reads as Idle |
| AutoReindex.StateRoundTrip | crates/velesdb-core/src/collection/auto_reindex/mod.rs:40-62 | storing a state and loading it back gives the same state, and no two states share a byte |
| AutoReindex.Disabled | crates/velesdb-core/src/collection/auto_reindex/mod.rs:153-161 | the disabled preset is the default with reindexing turned off |
| AutoReindex.WithThreshold | crates/velesdb-core/src/collection/auto_reindex/mod.rs:163-170 | the threshold preset is the default with the divergence threshold replaced |
| AutoReindex.CheckDivergence | crates/velesdb-core/src/collection/auto_reindex/mod.rs:325-380 | below the minimum size the check declines with ratio 1 and the current `M` as optimal; otherwise it reports the optimal `M` for the size, their ratio (infinite for a current `M` of 0), and a reason exactly when it recommends a reindex |
| AutoReindex.DivergenceSpec | crates/velesdb-core/src/collection/auto_reindex/mod.rs:325-380 | a reindex is recommended exactly when enabled, at or above the minimum size, and the optimal `M` reaches the threshold times the current one |
| AutoReindex.ValidateBenchmark | crates/velesdb-core/src/collection/auto_reindex/mod.rs:414-456 | latency is judged first, then recall; the new index is rejected with a latency error exactly when latency regressed beyond its limit, with a recall error exactly when only recall did, and accepted otherwise |
| AutoReindex.LatencyChangeSpec | crates/velesdb-core/src/collection/auto_reindex/mod.rs:428-434 | the latency change exceeds its bound exactly when the difference scaled by 100 exceeds the bound times the old latency |
| AutoReindex.NewManager | crates/velesdb-core/src/collection/auto_reindex/mod.rs:233-243 | a new manager is idle and has never reindexed |
| AutoReindex.ShouldReindex | crates/velesdb-core/src/collection/auto_reindex/mod.rs:382-411 | no reindex is recommended during the cooldown, while one is under way, when disabled, or below the minimum size |
| AutoReindex.ShouldReindexSpec | crates/velesdb-core/src/collection/auto_reindex/mod.rs:382-411 | a reindex is recommended exactly when out of cooldown, idle, and the divergence check recommends one |
| AutoReindex.TransitionTo | crates/velesdb-core/src/collection/auto_reindex/mod.rs:458-469 | a transition sets the state and nothing else |
| AutoReindex.StartReindex | crates/velesdb-core/src/collection/auto_reindex/mod.rs:491-512 | only an idle manager starts, moving to Building and announcing the reason and parameters; otherwise nothing changes |
| AutoReindex.TriggerManualReindex | crates/velesdb-core/src/collection/auto_reindex/mod.rs:471-489 | the manual trigger goes only from Idle to Building and announces a manual start with default parameters |
| AutoReindex.ReportProgress | crates/velesdb-core/src/collection/auto_reindex/mod.rs:514-521 | only a building manager reports progress, capped at 100, and the state never changes |
| AutoReindex.StartValidation | crates/velesdb-core/src/collection/auto_reindex/mod.rs:523-542 | validation goes only from Building to Validating and announces both latencies |
| AutoReindex.CompleteReindex | crates/velesdb-core/src/collection/auto_reindex/mod.rs:544-561 | completion goes only from Validating or Swapping to Idle and starts the cooldown |
| AutoReindex.Rollback | crates/velesdb-core/src/collection/auto_reindex/mod.rs:562-573 | rollback goes from any state but Idle to Idle without touching the cooldown, and refuses from Idle |
| AutoReindex.Reset | crates/velesdb-core/src/collection/auto_reindex/mod.rs:575-579 | reset returns to Idle silently and changes nothing else |
| AutoReindex.CooldownAfterComplete | crates/velesdb-core/src/collection/auto_reindex/mod.rs:382-396 | right after a completed reindex none is recommended until the cooldown has passed, whatever the parameters |
| AutoReindex.RunNeverSwaps | crates/velesdb-core/src/collection/auto_reindex/mod.rs:458-579 | no call stores Swapping, so from a new manager the state is never Swapping |
| AutoReindex.UnmatchedStep | crates/velesdb-core/src/collection/auto_reindex/mod.rs:458-579 | a call other than reset keeps the balance of started and finished reindexes; a reset can only abandon one |
| AutoReindex.RunLifecycle | crates/velesdb-core/src/collection/auto_reindex/mod.rs:458-579 | every started reindex is completed, rolled back, abandoned by a reset, or the one under way; without resets the starts are exactly the finishes plus one while busy |
| CompositeIndex.NewComposite | crates/velesdb-core/src/collection/graph/property_index/composite.rs:45-56 | a new composite index holds no value combination and keeps the label and property list it was given |
| CompositeIndex.CoversSubsets | crates/velesdb-core/src/collection/graph/property_index/composite.rs:78-86 | an index covers its own property list, the empty list and any list drawn from its properties in any order, and never a query under another label |
| CompositeIndex.Lookup | crates/velesdb-core/src/collection/graph/property_index/composite.rs:124-131 | a value list of the wrong length finds nothing; otherwise the lookup is empty exactly when no list is stored under the values' hash |
| CompositeIndex.Insert | crates/velesdb-core/src/collection/graph/property_index/composite.rs:89-101 | a value list of the wrong length leaves the index unchanged; otherwise the id is appended to the list under the values' hash and every other hash reads as before |
| CompositeIndex.TakeOut | crates/velesdb-core/src/collection/graph/property_index/composite.rs:110-111 | taking an id out of a list holding it removes exactly one occurrence and shortens the list by one |
| CompositeIndex.TakeOutAppended | crates/velesdb-core/src/collection/graph/property_index/composite.rs:110-111 | an id appended to a list that lacked it is the occurrence found first, and removing it gives back the original list |
| CompositeIndex.Remove | crates/velesdb-core/src/collection/graph/property_index/composite.rs:104-120 | removal reports true exactly when the id is listed under the values' hash, leaves the index unchanged when it reports false, and never leaves an empty list behind |
| CompositeIndex.RemoveLookups | crates/velesdb-core/src/collection/graph/property_index/composite.rs:104-120 | a removal changes only the list under the values' hash: one occurrence of the id leaves it, and the hash disappears when that was its last id |
| CompositeIndex.CollisionSharesList | crates/velesdb-core/src/collection/graph/property_index/composite.rs:124-131 | two value lists whose hashes collide read the same id list, so a lookup can return ids inserted under other values |
| CompositeIndex.InsertRemoveRoundTrip | crates/velesdb-core/src/collection/graph/property_index/composite.rs:89-120 | removing an id just inserted, that was not there before, restores the index exactly and reports true |
| CompositeIndex.RemoveAppended | crates/velesdb-core/src/collection/graph/property_index/composite.rs:104-120 | removing the id that sits last in its list pops it, and drops the hash when the list empties |
| CompositeIndex.Clear | crates/velesdb-core/src/collection/graph/property_index/composite.rs:146-148 | clearing leaves no value combination, keeps label and properties, and every lookup afterwards is empty |
| CompositeIndex.CreateIndex | crates/velesdb-core/src/collection/graph/property_index/composite.rs:195-209 | creation fails and changes nothing when the name is taken; otherwise the name maps to an empty index with the given label and properties, and all other indexes are kept |
| CompositeIndex.Get | crates/velesdb-core/src/collection/graph/property_index/composite.rs:213-215 | a lookup by name finds exactly the names the manager holds, and returns that name's index |
| CompositeIndex.DropIndex | crates/velesdb-core/src/collection/graph/property_index/composite.rs:223-225 | dropping reports whether the name existed, removes only that name, and keeps every other index as it was |
| CompositeIndex.FindCovering | crates/velesdb-core/src/collection/graph/property_index/composite.rs:229-235 | the covering set holds exactly the names whose index covers the label and properties |
| CompositeIndex.ListIndexes | crates/velesdb-core/src/collection/graph/property_index/composite.rs:239-241 | the listed names are exactly the manager's names |
| CompositeIndex.CreateThenFind | crates/velesdb-core/src/collection/graph/property_index/composite.rs:195-241 | a name just created is listed, covers its own label and properties, and a second creation under it fails |
| CompositeIndex.ExtractValues | crates/velesdb-core/src/collection/graph/property_index/composite.rs:247-252 | the values taken from a node follow the index's property order, one per property, with Null for a property the node lacks |
| CompositeIndex.OnAddNode | crates/velesdb-core/src/collection/graph/property_index/composite.rs:244-256 | adding a node keeps the manager's set of index names and its well-formedness |
| CompositeIndex.OnRemoveNode | crates/velesdb-core/src/collection/graph/property_index/composite.rs:259-275 | removing a node keeps the manager's set of index names and its well-formedness |
| CompositeIndex.OnAddNodeIndexes | crates/velesdb-core/src/collection/graph/property_index/composite.rs:244-256 | after adding a node every index on its label finds it under the node's values, and indexes on other labels are untouched |
| CompositeIndex.AddRemoveRoundTrip | crates/velesdb-core/src/collection/graph/property_index/composite.rs:244-275 | removing a node just added, that no index on its label held under its values, gives back the manager unchanged |
| RangeIndex.Find | crates/velesdb-core/src/collection/graph/property_index/range.rs:115-120 | the entry found is the only one the key order calls equal to the key; none is found when no entry is equal |
| RangeIndex.FindOnly | crates/velesdb-core/src/collection/graph/property_index/range.rs:115-120 | in a well-formed index an entry equal to the key is the one found |
| RangeIndex.Bucket | crates/velesdb-core/src/collection/graph/property_index/range.rs:115-120 | an exact lookup returns the ids of the equal entry, and nothing when there is none |
| RangeIndex.InsertPos | crates/velesdb-core/src/collection/graph/property_index/range.rs:91-97 | the insertion point comes after every smaller key and before every key that is not smaller |
| RangeIndex.InsertSpec | crates/velesdb-core/src/collection/graph/property_index/range.rs:91-97 | insertion keeps the keys strictly increasing, appends the id to the key's bucket and leaves every other key's bucket as it was |
| RangeIndex.InsertSpecAll | crates/velesdb-core/src/collection/graph/property_index/range.rs:91-97 | the same, for every probe key at once |
| RangeIndex.InsertNewSpec | crates/velesdb-core/src/collection/graph/property_index/range.rs:91-97 | a new entry placed at the insertion point keeps the keys strictly increasing |
| RangeIndex.RemoveSpec | crates/velesdb-core/src/collection/graph/property_index/range.rs:99-111 | removal keeps the keys increasing, succeeds exactly when the id is in the key's bucket, then takes one occurrence out of that bucket, drops the entry when it empties, and changes no other bucket |
| RangeIndex.RemoveSpecAll | crates/velesdb-core/src/collection/graph/property_index/range.rs:99-111 | the same, for every probe key at once |
| RangeIndex.RemoveEntrySpec | crates/velesdb-core/src/collection/graph/property_index/range.rs:104-106 | dropping an emptied entry keeps the keys increasing, keeps the buckets of other keys, and empties its own |
| RangeIndex.RangeIds | crates/velesdb-core/src/collection/graph/property_index/range.rs:122-140 | an id is listed by a range scan exactly when some entry whose key lies within the bounds holds it |
| RangeIndex.RangeIdsCount | crates/velesdb-core/src/collection/graph/property_index/range.rs:135-139 | a key within the bounds contributes its whole bucket, repeats included, to the scan |
| RangeIndex.NewIndex | crates/velesdb-core/src/collection/graph/property_index/range.rs:70-78 | a new range index has no entry and keeps its label and property |
| RangeIndex.IndexInsert | crates/velesdb-core/src/collection/graph/property_index/range.rs:91-97 | after inserting, an exact lookup of the value ends with the id, and every value the order does not equate with it reads as before |
| RangeIndex.IndexRemove | crates/velesdb-core/src/collection/graph/property_index/range.rs:99-111 | removal reports true exactly when the id was listed under the value, then one occurrence of it is gone and other values read as before; on false the index is unchanged |
| RangeIndex.LookupRange | crates/velesdb-core/src/collection/graph/property_index/range.rs:122-140 | with both bounds given and the lower one above the upper one in the key order, the scan fails as `BTreeMap::range` panics; otherwise the ids returned are exactly those stored under a value between the bounds, both inclusive, with a missing bound open |
| RangeIndex.LookupGt | crates/velesdb-core/src/collection/graph/property_index/range.rs:142-151 | the ids returned are exactly those stored under a value strictly above the given one |
| RangeIndex.LookupLt | crates/velesdb-core/src/collection/graph/property_index/range.rs:154-163 | the ids returned are exactly those stored under a value strictly below the given one |
| RangeIndex.IndexedIsFound | crates/velesdb-core/src/collection/graph/property_index/range.rs:91-163 | an id inserted under a value is found by every inclusive range containing the value, which never panics, and by an exact lookup of any value the order equates with it |
| OrderedValues.OrderedCmp | crates/velesdb-core/src/collection/graph/property_index/range.rs:33-52 | Null sorts first and equals only Null, two numbers compare as 64-bit floats by total order, two strings by their characters |
| OrderedValues.KindRank | crates/velesdb-core/src/collection/graph/property_index/range.rs:33-52 | each kind of JSON value has one of six ranks |
| OrderedValues.OrderedIsRanked | crates/velesdb-core/src/collection/graph/property_index/range.rs:33-52 | the order equals a ranking by kind first and by value within a kind, given JSON text whose first character reveals the kind |
| OrderedValues.RankedAntisymmetric | crates/velesdb-core/src/collection/graph/property_index/range.rs:33-52 | swapping the operands reverses the comparison |
| OrderedValues.RankedTransitive | crates/velesdb-core/src/collection/graph/property_index/range.rs:33-52 | the comparison is transitive |
| OrderedValues.OrderedTotalPreorder | crates/velesdb-core/src/collection/graph/property_index/range.rs:27-52 | the value order is a total preorder, as the ordered map needs |
| OrderedValues.KindsOrdered | crates/velesdb-core/src/collection/graph/property_index/range.rs:36-50 | kinds sort Null, String, Number, Array, Bool, Object: every value of a lower kind sorts first |
| OrderedValues.IntFloatSameKey | crates/velesdb-core/src/collection/graph/property_index/range.rs:40-44 | an integer and a float of the same value are the same key |
| IndexIntersection.Meet | crates/velesdb-core/src/collection/graph/property_index/range.rs:270-284 | the intersection holds exactly the ids in every set, and no sets intersect to nothing |
| IndexIntersection.IntersectBitmaps | crates/velesdb-core/src/collection/graph/property_index/range.rs:270-284 | with the early exit the result still holds exactly the ids in every set, and is empty for no sets |
| IndexIntersection.IntersectBitmapsIsMeet | crates/velesdb-core/src/collection/graph/property_index/range.rs:276-281 | stopping early when the running result is empty gives the same set as the full fold |
| IndexIntersection.Ascending | crates/velesdb-core/src/collection/graph/property_index/range.rs:325-328 | reading a bitmap back lists each of its ids once, in ascending order |
| IndexIntersection.IntersectVecs | crates/velesdb-core/src/collection/graph/property_index/range.rs:293-329 | the result is strictly ascending and holds exactly the ids that fit in 32 bits and occur in every list |
| IndexIntersection.IntersectTwo | crates/velesdb-core/src/collection/graph/property_index/range.rs:333-343 | the result holds exactly the ids in both lists and is no longer than either |
| IndexIntersection.IntersectTwoDistinct | crates/velesdb-core/src/collection/graph/property_index/range.rs:333-343 | lists without repeats intersect to a list without repeats |
| IndexIntersection.VecsAgreeWithTwo | crates/velesdb-core/src/collection/graph/property_index/range.rs:293-343 | on ids that fit in 32 bits both routes find the same ids |
| IndexIntersection.WideIdDropped | crates/velesdb-core/src/collection/graph/property_index/range.rs:300-316 | an id above u32::MAX held by both lists is lost by the bitmap route and kept by the two-list route |
| IndexIntersection.IntersectTwoOrderMatters | crates/velesdb-core/src/collection/graph/property_index/range.rs:335-342 | with a repeated id the two-list intersection is not symmetric: repeats of the shorter list are kept, those of the longer are not |
| Join.AdaptiveBatchSize | crates/velesdb-core/src/collection/search/query/join.rs:38-51 | the batch size is between 1 and 5000, equals the key count for 1 to 100 keys, and is at least 1000 above 100 keys |
| Join.AdaptiveBatchSizeMonotone | crates/velesdb-core/src/collection/search/query/join.rs:45-51 | more keys never give smaller batches |
| Join.NormalizeJoinCondition | crates/velesdb-core/src/collection/search/query/join.rs:273-290 | normalisation either keeps the condition or swaps its sides; afterwards the joined table (or its alias) is on the left whenever either side names it, and a condition already naming it on the left is kept |
| Join.NormalizeJoinConditionIdempotent | crates/velesdb-core/src/collection/search/query/join.rs:273-290 | normalising twice is normalising once |
| Join.ResolveJoinCondition | crates/velesdb-core/src/collection/search/query/join.rs:245-269 | an ON condition resolves to its normalised form; USING resolves only with exactly one column, to that column of the joined table against the same column of the results; anything else does not resolve |
| Join.JoinKeyOf | crates/velesdb-core/src/collection/search/query/join.rs:61-97 | every extracted join key lies in the i64 range |
| Join.JoinKeyOfFlat | crates/velesdb-core/src/collection/search/query/join.rs:61-97 | the key is the payload field when it is an i64; otherwise, and only for the `id` column, the point id when it fits an i64 |
| Join.ExtractJoinKeys | crates/velesdb-core/src/collection/search/query/join.rs:61-97 | every entry pairs a result index with that result's join key |
| Join.ExtractJoinKeysComplete | crates/velesdb-core/src/collection/search/query/join.rs:61-97 | every result that has a join key has its entry |
| Join.ExtractJoinKeysOrdered | crates/velesdb-core/src/collection/search/query/join.rs:61-97 | entries follow the results' order, each index at most once |
| Join.ExtractJoinKeysNone | crates/velesdb-core/src/collection/search/query/join.rs:61-97 | results none of which has a join key give no entries |
| Join.NullRow | crates/velesdb-core/src/collection/search/query/join.rs:330-335 | the null row holds exactly the store's columns, each set to null |
| Join.BatchGetRows | crates/velesdb-core/src/collection/search/query/join.rs:295-315 | the batch holds exactly the requested keys the store has, each mapped to its row |
| Join.UnmatchedPk | crates/velesdb-core/src/collection/search/query/join.rs:200-214 | a store row contributes its key only when its join column holds a non-negative i64 that the key phase did not match |
| Join.ValidateJoin | crates/velesdb-core/src/collection/search/query/join.rs:134-156 | validation succeeds exactly when the condition resolves and its joined-table column is the store's primary key, yielding the resolved condition; an unresolvable condition is reported as a missing condition |
| Join.ExecuteJoinAsWritten | crates/velesdb-core/src/collection/search/query/join.rs:129-235 | the join fails exactly when validation fails |
| Join.ExecuteJoinAsWrittenDropsLeft | crates/velesdb-core/src/collection/search/query/join.rs:161-163 | a LEFT join of a single result without a join key returns no row at all, losing the result the LEFT join should keep |
| Join.ExecuteJoinAsWrittenDropsRight | crates/velesdb-core/src/collection/search/query/join.rs:161-163 | a RIGHT join over results without join keys returns no row, losing the store's unmatched rows |
| Join.ExecuteJoin | crates/velesdb-core/src/collection/search/query/join.rs:129-235 | with the early return removed, the join still fails exactly when validation fails, with the same error |
| Join.ExecuteJoinAgrees | crates/velesdb-core/src/collection/search/query/join.rs:129-235 | when some result has a join key the corrected join and the join as written give the same rows |
| Join.MatchRowsHolds | crates/velesdb-core/src/collection/search/query/join.rs:186-197 | the key phase emits the rows of each key |
| Join.MatchRowsFrom | crates/velesdb-core/src/collection/search/query/join.rs:186-197 | every row of the key phase comes from some key |
| Join.LeftIndicesKept | crates/velesdb-core/src/collection/search/query/join.rs:190-195 | when unmatched results are kept, the key phase marks exactly the indices that have a key |
| Join.UnmatchedLeftHolds | crates/velesdb-core/src/collection/search/query/join.rs:223-232 | a result the key phase did not mark gets its null-filled row |
| Join.LeftJoinKeepsEveryResult | crates/velesdb-core/src/collection/search/query/join.rs:186-232 | a LEFT or FULL join keeps every result, joined to the store row of its key, or null-filled when there is none |
| Join.InnerJoinMatchedOnly | crates/velesdb-core/src/collection/search/query/join.rs:186-197 | an INNER join yields only results joined to the store row of their own key, and yields every result whose key the store holds |
| Join.KeyPhaseStep | crates/velesdb-core/src/collection/search/query/join.rs:186-197 | one more key extends the rows, the marked results and the found keys by exactly that key's contribution |
| Join.MatchPhase | crates/velesdb-core/src/collection/search/query/join.rs:165-198 | processing the keys in batches of any positive size gives the same rows, marks and found keys as taking them one by one |
| Join.RightPhase | crates/velesdb-core/src/collection/search/query/join.rs:200-220 | the loop over live store rows adds exactly the rows whose key was not matched |
| Join.LeftPhase | crates/velesdb-core/src/collection/search/query/join.rs:223-232 | the loop over results adds exactly the null-filled rows of unmarked results |
| Join.RunJoin | crates/velesdb-core/src/collection/search/query/join.rs:129-235 | the batched loops compute the corrected join |
| Join.JoinedToSearchResults | crates/velesdb-core/src/collection/search/query/join.rs:342-364 | one search result per joined result, keeping its point id, vector and score, with an object payload in every case |
| Join.JoinedFieldsReadBack | crates/velesdb-core/src/collection/search/query/join.rs:342-364 | a field of the merged payload reads as the joined column when the join supplied one, and as the original field otherwise |
| LegacyQuery.SubFromNoMatch | crates/velesdb-python/python/velesdb/__init__.py:241-258 | a substitution scan that finds no match from a position on copies the rest of the text unchanged |
| LegacyQuery.SubFromReplacesMatch | crates/velesdb-python/python/velesdb/__init__.py:241-258 | where a rule matches, the scan emits the replacement and resumes after the match |
| LegacyQuery.IdentEnd | crates/velesdb-python/python/velesdb/__init__.py:242 | an identifier starts with a letter or underscore, runs over letters, digits and underscores, and ends where they stop (greedy) |
| LegacyQuery.SpacesEnd | crates/velesdb-python/python/velesdb/__init__.py:242 | a run of white space is non-empty and ends at the first non-space |
| LegacyQuery.FusionRewrite | crates/velesdb-python/python/velesdb/__init__.py:243 | the fusion replacement is the 26 fixed characters around the strategy name |
| LegacyQuery.NormalizeWithoutLegacySyntax | crates/velesdb-python/python/velesdb/__init__.py:237-259 | a query none of the three rules matches anywhere is returned unchanged |
| LegacyQuery.FusionRewriteIsFinal | crates/velesdb-python/python/velesdb/__init__.py:241-246 | text starting with a fusion rewrite does not match the fusion rule again, because `(` cannot start an identifier |
| LegacyQuery.RuleIsMatch | crates/velesdb-python/python/velesdb/__init__.py:242 | the fusion rule matches at a position exactly when USING, white space, FUSION, white space and an identifier follow there, in any letter case |
| LegacyQuery.RuleRewrite | crates/velesdb-python/python/velesdb/__init__.py:241-246 | a fusion match replaces the identifier it ends with by the quoted strategy form |
| LegacyQuery.PassLeavesNoMatch | crates/velesdb-python/python/velesdb/__init__.py:241-246 | the output of the fusion substitution contains no fusion match anywhere |
| LegacyQuery.FusionPassIsFinal | crates/velesdb-python/python/velesdb/__init__.py:241-246 | after the fusion substitution no fusion match is left, and a second substitution changes nothing |
| LegacyQuery.FromAliasShape | crates/velesdb-python/python/velesdb/__init__.py:247-252 | a FROM alias is added only when the two identifiers are followed by JOIN, WHERE, GROUP, ORDER, LIMIT, OFFSET or the end, and the result reads FROM table AS alias |
| LegacyQuery.JoinAliasShape | crates/velesdb-python/python/velesdb/__init__.py:253-258 | a JOIN alias is added only when the two identifiers are followed by ON, WHERE, GROUP, ORDER, LIMIT, OFFSET or the end, and the result reads JOIN table AS alias |
| LegacyQuery.Parse | crates/velesdb-python/python/velesdb/__init__.py:262-269 | the native parser sees the raw text first; its success is returned; on failure the normalised text is parsed once more, unless normalisation changed nothing, in which case the first error stands |
| LegacyQuery.ValidQueriesParse | crates/velesdb-python/python/velesdb/__init__.py:262-273 | when the native validity check agrees with the native parser, every query the validity check accepts is one the parser accepts |
| LegacyQuery.CompileLike | crates/velesdb-python/python/velesdb/__init__.py:28-41 | each pattern character becomes one token: `%` any run, `_` any one character, every other character itself |
| LegacyQuery.LiteralPatternMatchesItself | crates/velesdb-python/python/velesdb/__init__.py:28-41 | a pattern without wildcards matches exactly the text it spells |
| LegacyQuery.AnyRunMatchesAll | crates/velesdb-python/python/velesdb/__init__.py:33-34 | a lone `%` matches every text |
| LegacyQuery.LikeNewlineDiscrepancy | crates/velesdb-python/python/velesdb/__init__.py:32-41 | the compiled regex lets `%` stop at a newline and accepts a trailing newline: `a%` fails on "a\nb" and `abc` matches "abc\n", unlike SQL LIKE |
| LegacyQuery.TokensMatchWithoutNewline | crates/velesdb-python/python/velesdb/__init__.py:32-41 | on text without a newline the compiled regex and SQL LIKE decide alike |
| LegacyQuery.LikeAgrees | crates/velesdb-python/python/velesdb/__init__.py:28-41 | on values without a newline the as-written LIKE and SQL LIKE agree |
| LegacyQuery.MatchesFilter | crates/velesdb-python/python/velesdb/__init__.py:44-69 | an absent or empty filter passes everything, and a well-formed condition rejects every payload that is not a dict |
| LegacyQuery.FilterDecision | crates/velesdb-python/python/velesdb/__init__.py:44-69 | a non-dict payload or a missing or non-string field fails; a string field is decided by LIKE for `like`, by case-insensitive LIKE for `ilike`, and passes for any other condition type |
| LegacyQuery.FilterDecisionAsWritten | crates/velesdb-python/python/velesdb/__init__.py:44-69 | the same decision for the filter as written, with the regex-based LIKE |
| LegacyQuery.MatchesFilterAgrees | crates/velesdb-python/python/velesdb/__init__.py:44-69 | on payloads whose string values hold no newline the as-written and the corrected filter agree |
| LegacyQuery.MalformedConditionPasses | crates/velesdb-python/python/velesdb/__init__.py:52-57 | a condition whose field or pattern is missing or not a string passes every payload, whatever the payload |
| MatchExec.ParsePropertyPath | crates/velesdb-core/src/collection/search/query/match_exec/mod.rs:76-91 | a split path reassembles to the expression around its first dot, and the wildcard, function calls and text without a dot never split |
| MatchExec.ParsePropertyPathInverse | crates/velesdb-core/src/collection/search/query/match_exec/mod.rs:76-91 | every `alias.property` with a non-empty alias free of dots and parentheses splits back into exactly its alias and property, however many dots the property holds |
| MatchExec.ComputeMaxDepth | crates/velesdb-core/src/collection/search/query/match_exec/mod.rs:303-321 | no relationships give depth 0; otherwise the depth lies in 1..10, is the capped sum of the per-relationship depths (a range's end capped at 10, else 1) when that sum is positive, and the capped relationship count when it is 0 |
| MatchExec.SaturatingAddU32 | crates/velesdb-core/src/collection/search/query/match_exec/mod.rs:308-310 | the u32 saturating sum is the true sum capped at u32::MAX |
| MatchExec.ExtractRelTypes | crates/velesdb-core/src/collection/search/query/match_exec/mod.rs:324-330 | the type filter holds exactly the types named by some relationship of the pattern |
| MatchExec.ExtractRelTypesAppend | crates/velesdb-core/src/collection/search/query/match_exec/mod.rs:324-330 | the type list of two patterns joined is the two type lists joined, so types stay in pattern order |
| MatchExec.ValuesMatchIsEquality | crates/velesdb-core/src/collection/search/query/match_exec/mod.rs:333-348 | the inline property test of a node pattern agrees with the WHERE equality test on every pair of values |
| MatchExec.GetNestedProperty | crates/velesdb-core/src/collection/search/query/match_exec/similarity.rs:63-90 | a path of more than 10 parts reads nothing |
| MatchExec.GetNestedPropertyIsPath | crates/velesdb-core/src/collection/search/query/match_exec/similarity.rs:63-90 | within 10 parts a non-empty path reads the same value as the WHERE path lookup on the payload object |
| MatchExec.ProjectPropertiesSpec | crates/velesdb-core/src/collection/search/query/match_exec/similarity.rs:26-57 | a key (the item's alias, else its expression) is projected exactly when some item with that key resolves through its bound node's payload, and it holds the value of the last such item |
| MatchExec.MatchOrderComparator | crates/velesdb-core/src/collection/search/query/match_exec/similarity.rs:203-230 | an ordering exists exactly for `similarity()`, `similarity` and `depth`, and it is a total preorder |
| MatchExec.OrderMatchResultsSpec | crates/velesdb-core/src/collection/search/query/match_exec/similarity.rs:203-230 | ordering permutes the results; by depth it runs shallow to deep (deep to shallow when descending), by similarity low to high score with a missing score as 0 (reversed when descending); any other key changes nothing |
| MatchExec.MatchResultsToSearchResults | crates/velesdb-core/src/collection/search/query/match_exec/similarity.rs:240-269 | conversion succeeds exactly when every node's vector can be read; each match keeps its node id and payload and its score, or gets a score in (0, 1] from its depth when it has none |
| MatchExec.StartNodesLimitZero | crates/velesdb-core/src/collection/search/query/match_exec/mod.rs:120-160 | with `LIMIT 0` and no relationships the code as written still returns the first passing start node |
| MatchExec.StartNodesSpec | crates/velesdb-core/src/collection/search/query/match_exec/mod.rs:135-160 | with the limit checked before a row is taken, the result is the first `limit` start nodes that pass WHERE, in scan order, and it succeeds whenever every WHERE test does |
| MatchExec.StartNodesAsWrittenAgrees | crates/velesdb-core/src/collection/search/query/match_exec/mod.rs:135-160 | for any positive limit the code as written returns the same rows as the corrected path |
| MatchWhere.EvaluateComparisonOrdered | crates/velesdb-core/src/collection/search/query/match_exec/where_eval.rs:243-287 | integers and strings compare by their total order under all six operators, floats under the four order operators |
| MatchWhere.EvaluateComparisonNegation | crates/velesdb-core/src/collection/search/query/match_exec/where_eval.rs:250-299 | on comparable values `<>` is the negation of `=`; booleans fail every order operator; every other pairing fails every operator |
| MatchWhere.ResolveWhereParam | crates/velesdb-core/src/collection/search/query/match_exec/where_eval.rs:203-239 | a non-parameter is returned as is; a missing parameter is an error, as is an array or object value; every success is a concrete value |
| MatchWhere.ResolvedParamMatchesSource | crates/velesdb-core/src/collection/search/query/match_exec/where_eval.rs:203-239 | a resolved parameter compares equal to the JSON value it came from |
| MatchWhere.JsonGetPath | crates/velesdb-core/src/collection/search/query/match_exec/where_eval.rs:302-313 | the empty path reads the value itself |
| MatchWhere.JsonGetPathStep | crates/velesdb-core/src/collection/search/query/match_exec/where_eval.rs:302-313 | a key without dots selects that field, and `a.rest` selects `rest` inside field `a` |
| MatchWhere.LenientNumbersAgree | crates/velesdb-core/src/collection/search/query/match_exec/where_eval.rs:119-123 | on an array of numbers only, the lenient conversion of a vector parameter agrees with the strict one of the SELECT path |
| MatchWhere.MatchQueryVector | crates/velesdb-core/src/collection/search/query/match_exec/where_eval.rs:111-131 | the query vector fails exactly for a parameter that is missing or not an array, and otherwise agrees with the SELECT path's vector wherever that succeeds |
| MatchWhere.EvaluateSimilarity | crates/velesdb-core/src/collection/search/query/match_exec/where_eval.rs:102-193 | a bad vector parameter is an error, and a true result needs a stored node vector of the query's non-zero length |
| MatchWhere.ComparisonTarget | crates/velesdb-core/src/collection/search/query/match_exec/where_eval.rs:28-53 | a comparison reads another node only through a bound alias, and then reads the path after the alias |
| MatchWhere.EvaluateWhereSound | crates/velesdb-core/src/collection/search/query/match_exec/where_eval.rs:15-96 | the evaluation agrees with the boolean meaning of the condition tree, succeeds when every leaf does, and fails only because some leaf does |
| MatchWhere.ShortCircuit | crates/velesdb-core/src/collection/search/query/match_exec/where_eval.rs:66-79 | a false left operand decides AND and a true one decides OR, hiding any error on the right |
| MemoryPool.New | crates/velesdb-core/src/collection/graph/memory_pool/mod.rs:52-60 | a new pool is well formed, holds nothing, has chunk size at least 1 (the requested size when positive) and no capacity |
| MemoryPool.FreeFits | crates/velesdb-core/src/collection/graph/memory_pool/mod.rs:148-150 | the free list holds distinct indices below the capacity, so it is never longer than the capacity |
| MemoryPool.AllocatedCount | crates/velesdb-core/src/collection/graph/memory_pool/mod.rs:148-150 | the allocated count never exceeds the capacity |
| MemoryPool.AllocatedCountCounts | crates/velesdb-core/src/collection/graph/memory_pool/mod.rs:148-150 | the allocated count is the number of indices below the capacity that are not on the free list |
| MemoryPool.ChunkSlot | crates/velesdb-core/src/collection/graph/memory_pool/mod.rs:269-271 | an index splits into a chunk and a slot below the chunk size that recombine to the index |
| MemoryPool.ChunkInRange | crates/velesdb-core/src/collection/graph/memory_pool/mod.rs:109-112 | an index's chunk exists exactly when the index is below the capacity |
| MemoryPool.Get | crates/velesdb-core/src/collection/graph/memory_pool/mod.rs:109-121 | a read finds a value exactly at the indices that were stored and not deallocated since, and returns the stored value |
| MemoryPool.Store | crates/velesdb-core/src/collection/graph/memory_pool/mod.rs:87-102 | after a store the index reads the new value, every other index reads as before, and the free list, capacity and allocated count do not change |
| MemoryPool.Deallocate | crates/velesdb-core/src/collection/graph/memory_pool/mod.rs:129-144 | after deallocation the index reads nothing, every other index reads as before, the capacity is kept and the pool stays well formed |
| MemoryPool.Span | crates/velesdb-core/src/collection/graph/memory_pool/mod.rs:243-264 | the indices a growth frees run consecutively from the old capacity |
| MemoryPool.Grow | crates/velesdb-core/src/collection/graph/memory_pool/mod.rs:229-246 | a growth adds one chunk and frees every new slot but the last, leaving stored values alone |
| MemoryPool.GrowForBatch | crates/velesdb-core/src/collection/graph/memory_pool/mod.rs:249-266 | a batch growth adds one chunk and frees all its slots, leaving stored values alone |
| MemoryPool.FreshAppendDistinct | crates/velesdb-core/src/collection/graph/memory_pool/mod.rs:243-245 | indices from the old capacity on, appended to the free list, keep it free of repeats |
| MemoryPool.Allocate | crates/velesdb-core/src/collection/graph/memory_pool/mod.rs:71-80 | an allocation hands out an index below the capacity that is neither free nor holding a value: the last free index when there is one, otherwise the last slot of a new chunk |
| MemoryPool.PopOrder | crates/velesdb-core/src/collection/graph/memory_pool/mod.rs:179-183 | popping `n` entries returns the last `n`, last first |
| MemoryPool.PopOrderFacts | crates/velesdb-core/src/collection/graph/memory_pool/mod.rs:179-183 | pops of a list without repeats return distinct entries that are no longer listed |
| MemoryPool.GrowTimes | crates/velesdb-core/src/collection/graph/memory_pool/mod.rs:189-192 | `k` batch growths add `k` chunks and free all their slots in order |
| MemoryPool.DivCeil | crates/velesdb-core/src/collection/graph/memory_pool/mod.rs:189 | the chunk count needed is the least whose slots cover the remainder |
| MemoryPool.TakeFree | crates/velesdb-core/src/collection/graph/memory_pool/mod.rs:178-183 | the first loop hands out `n` distinct free indices, takes them off the free list and changes nothing else |
| MemoryPool.GrowAndTake | crates/velesdb-core/src/collection/graph/memory_pool/mod.rs:186-200 | with no free index left, the growth loop then the pop loop hand out `n` distinct fresh indices past the old capacity, none free afterwards, and change no stored value |
| MemoryPool.AllocateBatch | crates/velesdb-core/src/collection/graph/memory_pool/mod.rs:170-203 | a batch returns exactly `count` distinct indices, each below the new capacity, not free, and either formerly free or new; stored values are untouched and the allocated count grows by `count` |
| MemoryPool.JoinBatch | crates/velesdb-core/src/collection/graph/memory_pool/mod.rs:170-203 | indices taken from the free list and indices from growth never coincide, and none is free in the final pool |
| JsonOrdering.TypeRank | crates/velesdb-core/src/collection/search/query/ordering.rs:28-37 | each JSON kind has one of six ranks |
| JsonOrdering.CompareJsonValues | crates/velesdb-core/src/collection/search/query/ordering.rs:17-62 | a missing value sorts first, a lower kind rank sorts first, numbers compare by value and booleans false before true |
| JsonOrdering.CompareJsonValuesAntisymmetric | crates/velesdb-core/src/collection/search/query/ordering.rs:17-62 | swapping the operands reverses the outcome |
| JsonOrdering.CompareJsonValuesTransitive | crates/velesdb-core/src/collection/search/query/ordering.rs:17-62 | "not after" is transitive |
| JsonOrdering.CompareJsonValuesTotalPreorder | crates/velesdb-core/src/collection/search/query/ordering.rs:17-62 | the comparison is a total preorder, so sorting by it is well defined |
| JsonOrdering.FirstSimilarity | crates/velesdb-core/src/collection/search/query/ordering.rs:88-101 | a similarity vector is chosen exactly when some ORDER BY key is `similarity()` |
| JsonOrdering.DirectedKey | crates/velesdb-core/src/collection/search/query/ordering.rs:113-154 | each key's comparison, with its direction and the metric's sense applied, is a total preorder |
| JsonOrdering.DirectedKeys | crates/velesdb-core/src/collection/search/query/ordering.rs:112-154 | one directed comparison per key, in ORDER BY order |
| JsonOrdering.OrderComparator | crates/velesdb-core/src/collection/search/query/ordering.rs:110-163 | the chained comparison, where the first key that does not tie decides, is a total preorder |
| JsonOrdering.ApplyOrderBy | crates/velesdb-core/src/collection/search/query/ordering.rs:76-178 | no keys leave the results alone; otherwise the output is sorted by the chained comparison and is a permutation of the input, re-scored by similarity when a similarity key is present; it fails exactly when that key's vector does not resolve |
| ParallelTraversal.EffectiveThreads | crates/velesdb-core/src/collection/search/query/parallel_traversal/mod.rs:78-94 | a fixed thread count is used as given; the automatic count is one less than the CPUs reported, and never below 1 |
| ParallelTraversal.Ends | crates/velesdb-core/src/collection/search/query/parallel_traversal/traverser.rs:93-96 | the visited set is exactly the set of nodes reported so far |
| ParallelTraversal.EndsAppend | crates/velesdb-core/src/collection/search/query/parallel_traversal/traverser.rs:112-123 | reporting one more result adds exactly its node to the visited set |
| ParallelTraversal.Expand | crates/velesdb-core/src/collection/search/query/parallel_traversal/traverser.rs:107-125 | expanding one node keeps the earlier results, reports each newly met neighbour admitted by the filter once, one edge further out than the expanded entry, and keeps the visited set equal to the nodes reported |
| ParallelTraversal.WalksFromParents | crates/velesdb-core/src/collection/search/query/parallel_traversal/traverser.rs:111-123 | results that each extend an earlier result by one edge all lie on walks from the start |
| ParallelTraversal.BfsFrom | crates/velesdb-core/src/collection/search/query/parallel_traversal/traverser.rs:92-129 | the breadth-first loop reports the start first at depth 0, then nodes each reached from the start by a walk of `depth` edges with `depth` at most the maximum, none twice, each admitted by the filter, in order of depth |
| ParallelTraversal.BfsOrderKept | crates/velesdb-core/src/collection/search/query/parallel_traversal/traverser.rs:102-126 | appending the children of the entry under the cursor keeps the list ordered by depth |
| ParallelTraversal.BfsSingle | crates/velesdb-core/src/collection/search/query/parallel_traversal/traverser.rs:83-129 | the single-start breadth-first search reports the start at depth 0 and then distinct nodes, each reached by a walk of `depth` edges within the maximum depth, in order of depth |
| ParallelTraversal.DfsSingle | crates/velesdb-core/src/collection/search/query/parallel_traversal/traverser.rs:192-237 | the depth-first search gives the same guarantees without the depth order |
| ParallelTraversal.DedupBy | crates/velesdb-core/src/collection/search/query/parallel_traversal/traverser.rs:137-141 | the filter keeps only results from the input whose signature was not seen before them |
| ParallelTraversal.DedupByDistinct | crates/velesdb-core/src/collection/search/query/parallel_traversal/traverser.rs:137-141 | no two kept results share a signature |
| ParallelTraversal.DedupByCovers | crates/velesdb-core/src/collection/search/query/parallel_traversal/traverser.rs:137-141 | every signature of the input that was not seen in advance is kept |
| ParallelTraversal.ResultOrderMeaning | crates/velesdb-core/src/collection/search/query/parallel_traversal/traverser.rs:144-150 | the sort puts the higher score first (a missing score lowest), and between equal scores the shallower result |
| ParallelTraversal.ResultOrderTotal | crates/velesdb-core/src/collection/search/query/parallel_traversal/traverser.rs:144-150 | that comparison is a total preorder |
| ParallelTraversal.DistinctSigsPermutation | crates/velesdb-core/src/collection/search/query/parallel_traversal/traverser.rs:144-150 | sorting does not create repeated signatures |
| ParallelTraversal.SortedUniqueSpec | crates/velesdb-core/src/collection/search/query/parallel_traversal/traverser.rs:137-150 | before the cut the kept results have distinct signatures, are sorted by score then depth, and represent every signature of the input |
| ParallelTraversal.MergeAndDeduplicate | crates/velesdb-core/src/collection/search/query/parallel_traversal/traverser.rs:136-153 | the merge returns at most `limit` results, all from the input |
| ParallelTraversal.MergeSpec | crates/velesdb-core/src/collection/search/query/parallel_traversal/traverser.rs:136-153 | the merged list has distinct signatures, is sorted by score then depth, and when shorter than the limit represents every signature of the input |
| ParallelTraversal.TraverseAll | crates/velesdb-core/src/collection/search/query/parallel_traversal/traverser.rs:44-80 | the parallel breadth-first and depth-first searches return at most `limit` results, sorted, with distinct signatures, each from a start node by a walk within the maximum depth; below the limit every start node is represented; the statistics count the start nodes, the merged results and at least one raw result per start |
| Retrieval.RatioSign | crates/velesdb-core/src/metrics/retrieval.rs:45 | a ratio of counts is never negative, and zero only for a zero numerator |
| Retrieval.RatioInUnit | crates/velesdb-core/src/metrics/retrieval.rs:80 | a ratio of a part to its whole lies in [0, 1], reaching 1 only for the whole and 0 only for nothing |
| Retrieval.Hits | crates/velesdb-core/src/metrics/retrieval.rs:41-42 | the hits count the results found in the ground truth, repeats each time; none means no result is true, all means every result is |
| Retrieval.HitsSnoc | crates/velesdb-core/src/metrics/retrieval.rs:42 | one more result adds one hit exactly when it is true |
| Retrieval.HitsDistinct | crates/velesdb-core/src/metrics/retrieval.rs:41-42 | on results without repeats the hits are the number of distinct true neighbours found |
| Retrieval.RecallAtKAsWritten | crates/velesdb-core/src/metrics/retrieval.rs:36-47 | the recall as written is never negative, and is 0 exactly for an empty ground truth or when no result is a true neighbour |
| Retrieval.RecallAsWrittenExceedsOne | crates/velesdb-core/src/metrics/retrieval.rs:36-47 | ground truth [1] with results [1, 1] gives a recall of 2, outside the documented range |
| Retrieval.RecallAsWrittenOnDistinct | crates/velesdb-core/src/metrics/retrieval.rs:36-47 | on results without repeats the recall as written stays within 1 and equals the corrected recall |
| Retrieval.FoundBounds | crates/velesdb-core/src/metrics/retrieval.rs:36-47 | the true neighbours found number at most the ground truth's length, none exactly when no result is true, and all only when every true neighbour is found |
| Retrieval.RecallAtK | crates/velesdb-core/src/metrics/retrieval.rs:36-47 | the recall lies in [0, 1], is 0 exactly for an empty ground truth or no true result, and 1 only when every true neighbour is found |
| Retrieval.RecallRepeatedResult | crates/velesdb-core/src/metrics/retrieval.rs:36-47 | on the repeated result the corrected recall is 1 |
| Retrieval.PrecisionAtK | crates/velesdb-core/src/metrics/retrieval.rs:71-82 | the precision lies in [0, 1], is 0 exactly for no results or no relevant result, and 1 exactly when every result is relevant |
| Retrieval.FirstHit | crates/velesdb-core/src/metrics/retrieval.rs:106-111 | the first relevant position is relevant and nothing before it is; there is none exactly when no result is relevant |
| Retrieval.Mrr | crates/velesdb-core/src/metrics/retrieval.rs:103-114 | the reciprocal rank is one over the 1-based rank of the first relevant result, 0 when none is; it lies in [0, 1] and is 1 exactly when the top result is relevant |
| Retrieval.HitRate | crates/velesdb-core/src/metrics/retrieval.rs:231-247 | the hit rate lies in [0, 1], is 0 exactly for no queries or no query with a hit in its top `k`, and 1 exactly when every query has one |
| Retrieval.RelevantCount | crates/velesdb-core/src/metrics/retrieval.rs:276-281 | the relevant count never exceeds the list length |
| Retrieval.PrecisionSumBounds | crates/velesdb-core/src/metrics/retrieval.rs:279-286 | each precision term is at most 1, so the sum is at most the relevant count |
| Retrieval.PrecisionSumAllRelevant | crates/velesdb-core/src/metrics/retrieval.rs:279-286 | when every position is relevant each term is 1 |
| Retrieval.AveragePrecisionStep | crates/velesdb-core/src/metrics/retrieval.rs:279-286 | one more position adds one to the count and its precision to the sum exactly when it is relevant |
| Retrieval.AveragePrecisionBounds | crates/velesdb-core/src/metrics/retrieval.rs:275-293 | a list's average precision lies in [0, 1], and is 1 when every position of a non-empty list is relevant |
| Retrieval.AveragePrecision | crates/velesdb-core/src/metrics/retrieval.rs:275-293 | the loop computes the average precision, within [0, 1]; a list with nothing relevant scores 0 and an all-relevant list 1 |
| Retrieval.RatioAtMostOne | crates/velesdb-core/src/metrics/retrieval.rs:297 | a non-negative sum bounded by a positive count, over that count, lies in [0, 1] |
| Retrieval.MeanAveragePrecision | crates/velesdb-core/src/metrics/retrieval.rs:268-299 | the mean average precision is the mean of the per-list values, 0 with no lists, and lies in [0, 1] |
| Retrieval.MetricTotals | crates/velesdb-core/src/metrics/retrieval.rs:140-144 | each running total over `n` queries lies between 0 and `n` |
| Retrieval.AverageMetrics | crates/velesdb-core/src/metrics/retrieval.rs:127-153 | the three means are 0 when either list is empty, and each lies in [0, 1] |
| AggregationCall.AggTypeOf | crates/velesdb-core/src/collection/search/query/match_exec/return_agg.rs:50-57 | a name denotes an aggregation exactly when it is COUNT, SUM, AVG, MIN or MAX, and then that one |
| AggregationCall.ParseReturnAggregation | crates/velesdb-core/src/collection/search/query/match_exec/return_agg.rs:37-60 | an expression without both parentheses is no aggregation, and a parsed argument carries no surrounding Unicode white space |
| AggregationCall.NameAggregation | crates/velesdb-core/src/collection/search/query/match_exec/return_agg.rs:47-57 | a name denotes an aggregation exactly when its Unicode upper case is all ASCII and is one of the five names, and then that one |
| AggregationCall.ParseReturnAggregationInverse | crates/velesdb-core/src/collection/search/query/match_exec/return_agg.rs:37-60 | a call of an aggregation function spelt in any letter case parses back to that aggregation and its trimmed argument, whatever the argument holds |
| AggregationCall.ParseNamedCall | crates/velesdb-core/src/collection/search/query/match_exec/return_agg.rs:37-60 | a call `name(arg)` whose name holds no white space or `(` parses exactly when the name, trimmed and upper-cased with Unicode's rules, denotes an aggregation, and then to it and to the trimmed argument |
| AggregationCall.ParseCallAt | crates/velesdb-core/src/collection/search/query/match_exec/return_agg.rs:38-59 | a trimmed expression whose first `(` precedes its last `)` parses exactly when the text before the `(` names an aggregation, and then to it and to the trimmed text between |
| AggregationCall.AggTypeOfName | crates/velesdb-core/src/collection/search/query/match_exec/return_agg.rs:50-57 | each aggregation's name denotes it |
| AggregationCall.LeadingWhiteSpaceIgnored | crates/velesdb-core/src/collection/search/query/match_exec/return_agg.rs:38 | Unicode white space before an expression does not change its parse |
| AggregationCall.NoBreakSpaceBeforeCall | crates/velesdb-core/src/collection/search/query/match_exec/return_agg.rs:38 | a no-break space (U+00A0) before `COUNT(arg)` is trimmed away: the call still parses to COUNT and the trimmed argument |
| AggregationCall.NoBreakSpaceInArgument | crates/velesdb-core/src/collection/search/query/match_exec/return_agg.rs:47 | a no-break space opening the argument of `COUNT(…)` is trimmed with the rest of its white space |
| AggregationCall.LongSNamesSum | crates/velesdb-core/src/collection/search/query/match_exec/return_agg.rs:46-57 | `ſum(arg)` parses to SUM, since the long s upper-cases to `S` |
| AggregationCall.AccentedNameNamesNone | crates/velesdb-core/src/collection/search/query/match_exec/return_agg.rs:46-57 | `éum(arg)` is no aggregation, since its upper case `ÉUM` names none |
| ReturnAgg.AggregationOf | crates/velesdb-core/src/collection/search/query/match_exec/return_agg.rs:70-79 | an item is an aggregation exactly when its expression parses as one |
| ReturnAgg.Classify | crates/velesdb-core/src/collection/search/query/match_exec/return_agg.rs:65-86 | every item goes to exactly one side: the grouping keys are exactly the items that are not aggregations, every aggregation item contributes its aggregation, and there are no aggregations exactly when no item is one |
| ReturnAgg.ClassifyAppend | crates/velesdb-core/src/collection/search/query/match_exec/return_agg.rs:65-86 | classifying a concatenation concatenates the classifications, so RETURN order is kept on both sides |
| ReturnAgg.ResolveColumnValue | crates/velesdb-core/src/collection/search/query/match_exec/return_agg.rs:92-102 | a column resolves only when it is a property path whose alias is bound to a node with an object payload |
| ReturnAgg.ResolveColumnValueIsPath | crates/velesdb-core/src/collection/search/query/match_exec/return_agg.rs:92-102 | within the depth cap the column reads the same value as the WHERE path lookup on the bound node's payload |
| ReturnAgg.Numbers | crates/velesdb-core/src/collection/search/query/match_exec/return_agg.rs:219-267 | the numeric values of a column are at most one per member |
| ReturnAgg.MinOf | crates/velesdb-core/src/collection/search/query/match_exec/return_agg.rs:246-259 | the minimum is one of the values and no value is below it |
| ReturnAgg.MaxOf | crates/velesdb-core/src/collection/search/query/match_exec/return_agg.rs:260-273 | the maximum is one of the values and no value is above it |
| ReturnAgg.CountColumnAsWritten | crates/velesdb-core/src/collection/search/query/match_exec/return_agg.rs:209-215 | the count as written never exceeds the group size |
| ReturnAgg.CountColumn | crates/velesdb-core/src/collection/search/query/match_exec/return_agg.rs:204-216 | the corrected count of non-null values never exceeds the count as written |
| ReturnAgg.CountColumnAgrees | crates/velesdb-core/src/collection/search/query/match_exec/return_agg.rs:209-215 | where no member's column holds null, the count as written is the count of non-null values |
| ReturnAgg.CountColumnCountsNull | crates/velesdb-core/src/collection/search/query/match_exec/return_agg.rs:209-215 | a single member whose property holds null is counted once as written, and not at all by COUNT of a column |
| ReturnAgg.ComputeAggregation | crates/velesdb-core/src/collection/search/query/match_exec/return_agg.rs:198-275 | COUNT(*) is the group size and COUNT of a column its non-null count; SUM adds the numeric values; AVG, MIN and MAX are null exactly when there is no numeric value, and otherwise the mean, least and greatest of those values |
| ReturnAgg.GroupingPairs | crates/velesdb-core/src/collection/search/query/match_exec/return_agg.rs:166-178 | a row holds one grouping value per key, read from the representative, null when it does not resolve |
| ReturnAgg.AggregatePairs | crates/velesdb-core/src/collection/search/query/match_exec/return_agg.rs:181-184 | a row holds one aggregate value per aggregation, computed over the whole group |
| ReturnAgg.AggregateRowShape | crates/velesdb-core/src/collection/search/query/match_exec/return_agg.rs:156-191 | a group's row stands for its first member, with an empty path and no score, and holds every grouping and aggregate key |
| ReturnAgg.AggregateRowAggregate | crates/velesdb-core/src/collection/search/query/match_exec/return_agg.rs:181-184 | an aggregate whose key no later aggregate reuses holds its value over the whole group |
| ReturnAgg.AggregateRowGrouping | crates/velesdb-core/src/collection/search/query/match_exec/return_agg.rs:166-178 | a grouping item whose key no later item or aggregate reuses holds the representative's value, or null |
| ReturnAgg.GroupRows | crates/velesdb-core/src/collection/search/query/match_exec/return_agg.rs:156-191 | one aggregate row per group, in the order given |
| ReturnAgg.RowsPerGroup | crates/velesdb-core/src/collection/search/query/match_exec/return_agg.rs:144-191 | the rows are the aggregate rows of the groups, in order of first appearance |
| ReturnAgg.AggregateMatchResults | crates/velesdb-core/src/collection/search/query/match_exec/return_agg.rs:128-194 | there is no result exactly when no RETURN item is an aggregation; otherwise one row per distinct grouping key, in order of first appearance, each built from the non-empty set of results sharing that key |
| Security.AsInt | integrations/common/src/velesdb_common/security.py:103-104 | a value passes the integer type test exactly when it is an int or a bool, and an int reads as itself |
| Security.ValidateIntRange | integrations/common/src/velesdb_common/security.py:91-137 | a value is accepted exactly when it is an integer within the bounds, and is then returned unchanged; a non-integer fails on its type and an integer out of range on the bound it crosses |
| Security.ValidateDimension | integrations/common/src/velesdb_common/security.py:91-112 | a dimension is accepted exactly when it is an integer from 1 to 65 536, and is returned unchanged |
| Security.ValidateK | integrations/common/src/velesdb_common/security.py:115-137 | k is accepted exactly when it is an integer from 1 to 10 000, and is returned unchanged |
| Security.ValidateTimeout | integrations/common/src/velesdb_common/security.py:358-379 | a timeout is accepted exactly when it is an integer from 1 to 30 000 milliseconds, and is returned unchanged |
| Security.ValidateText | integrations/common/src/velesdb_common/security.py:140-159 | a text is accepted exactly when it is a string no longer than the limit, and is returned unchanged; a non-string fails on its type |
| Security.ValidateQuery | integrations/common/src/velesdb_common/security.py:162-205 | a query is accepted exactly when it is a string of at most 10 000 characters with no NUL, no semicolon followed by white space and a destructive keyword as a whole word, no `--`, no `/*` and no `0x` followed by two hex digits; an over-long query fails on its length and a stacked query on the stacked pattern |
| Security.ValidateMetric | integrations/common/src/velesdb_common/security.py:208-229 | a metric is accepted exactly when its lower-cased form is one of the five metric names, and the lower-cased form is returned |
| Security.ValidateStorageMode | integrations/common/src/velesdb_common/security.py:232-253 | a storage mode is accepted exactly when its lower-cased form is full, sq8 or binary, and the lower-cased form is returned |
| Security.MetricAndModeIdempotent | integrations/common/src/velesdb_common/security.py:208-253 | an accepted metric or storage mode validates again to itself |
| Security.ValidateBatchSize | integrations/common/src/velesdb_common/security.py:256-274 | a batch size is accepted exactly when it does not exceed 10 000, zero and negative sizes included, and is returned unchanged |
| Security.ValidateCollectionNameAsWritten | integrations/common/src/velesdb_common/security.py:277-304 | as written, a name is accepted exactly when it is a non-empty string of at most 256 characters of letters, digits, `_` and `-`, optionally followed by one final newline |
| Security.CollectionNameTrailingNewlineAccepted | integrations/common/src/velesdb_common/security.py:299-304 | as written, `abc` followed by a newline is accepted although the newline is not a name character |
| Security.ValidateCollectionName | integrations/common/src/velesdb_common/security.py:277-304 | corrected, a name is accepted exactly when it is a non-empty string of at most 256 name characters, and every name so accepted is accepted as written too |
| Security.ValidateUrl | integrations/common/src/velesdb_common/security.py:307-333 | a URL is accepted exactly when it is a string starting with `http://` or `https://` that holds no newline, carriage return or NUL |
| Security.ValidateWeightAsWritten | integrations/common/src/velesdb_common/security.py:336-355 | as written, a number is accepted exactly when it does not compare outside the unit interval, and comes back as a float |
| Security.WeightNaNAccepted | integrations/common/src/velesdb_common/security.py:352-355 | as written, NaN is accepted as a weight |
| Security.ValidateWeight | integrations/common/src/velesdb_common/security.py:336-355 | corrected, a weight is accepted exactly when it is a finite number in the closed unit interval, and every weight so accepted is accepted as written too, with the same value |
| Security.ValidatePath | integrations/common/src/velesdb_common/security.py:30-88 | an empty, over-long or NUL-holding path fails on that; an accepted path is free of parent traversal and UNC prefix, is returned in its resolved form and, under a non-empty base directory, lies within the resolved base; a resolvable path with a traversal or UNC prefix is refused as suspicious |
| Security.IntValidatorsIdempotent | integrations/common/src/velesdb_common/security.py:91-137 | an accepted dimension, k or timeout validates again to itself |
| Security.StringValidatorsIdempotent | integrations/common/src/velesdb_common/security.py:162-333 | an accepted query, collection name or URL validates again to itself |
| Security.WeightIdempotent | integrations/common/src/velesdb_common/security.py:336-355 | an accepted weight, passed back as a float, validates again to itself |
| ShardedTraversal.New | crates/velesdb-core/src/collection/search/query/parallel_traversal/sharded.rs:32-37 | the traverser has the default configuration and at least one shard: the requested count, or one when zero is asked for |
| ShardedTraversal.WithConfig | crates/velesdb-core/src/collection/search/query/parallel_traversal/sharded.rs:41-46 | the traverser keeps the given configuration and has the requested shard count, or one when zero is asked for |
| ShardedTraversal.ShardForNode | crates/velesdb-core/src/collection/search/query/parallel_traversal/sharded.rs:56-58 | every node lands in an existing shard |
| ShardedTraversal.ShardOfDecomposition | crates/velesdb-core/src/collection/search/query/parallel_traversal/sharded.rs:56-58 | ids one shard count apart share a shard, and the ids below the shard count fill the shards in turn |
| ShardedTraversal.PartitionByShard | crates/velesdb-core/src/collection/search/query/parallel_traversal/sharded.rs:62-69 | one list per shard, each holding exactly the input ids of that shard in input order, with as many ids in all as the input has |
| ShardedTraversal.BfsSingleShard | crates/velesdb-core/src/collection/search/query/parallel_traversal/sharded.rs:197-243 | a breadth-first traversal from the start within the depth bound, entering only nodes of the start node's shard, in order of depth |
| ShardedTraversal.StartResultsAsWritten | crates/velesdb-core/src/collection/search/query/parallel_traversal/sharded.rs:93-98 | as written, the opening pushes one depth-0 result per start node given, repeats included |
| ShardedTraversal.RepeatedStartReportedTwice | crates/velesdb-core/src/collection/search/query/parallel_traversal/sharded.rs:93-98 | as written, start node 7 given twice is reported twice, so the results do not have distinct end nodes although line 191 records them as deduplicated |
| ShardedTraversal.StartResults | crates/velesdb-core/src/collection/search/query/parallel_traversal/sharded.rs:93-98 | corrected, the opening reports each start node exactly once, as a depth-0 result with an empty path |
| ShardedTraversal.StartResultsInFirstOrder | crates/velesdb-core/src/collection/search/query/parallel_traversal/sharded.rs:93-98 | corrected, the start results follow the order in which start nodes first appear |
| ShardedTraversal.StartResultsAgree | crates/velesdb-core/src/collection/search/query/parallel_traversal/sharded.rs:93-98 | without repeated start nodes the corrected and as-written openings coincide |
| Sorting.SortBy | crates/velesdb-core/src/collection/search/query/ordering.rs:110-162 | the sorted list is a permutation of the input |
| Sorting.SortBySorted | crates/velesdb-core/src/collection/search/query/ordering.rs:110-162 | under a comparator that is a total preorder the sorted list is in order |
| Sorting.SortByAllEqual | crates/velesdb-core/src/collection/search/query/ordering.rs:110-162 | when every pair compares equal the list keeps its order, as a stable sort does |
| Sorting.FlipTotalPreorder | crates/velesdb-core/src/collection/search/query/ordering.rs:140-153 | reversing a comparator for a descending key keeps it a total preorder |
| Sorting.ByIntTotalPreorder | crates/velesdb-core/src/collection/search/query/ordering.rs:113-139 | ordering by an integer key is a total preorder |
| Sorting.ByRealTotalPreorder | crates/velesdb-core/src/collection/search/query/ordering.rs:113-139 | ordering by a real key, as `total_cmp` does for finite scores, is a total preorder |
| Sorting.OnTotalPreorder | crates/velesdb-core/src/collection/search/query/ordering.rs:113-139 | comparing by a projection of a total preorder is a total preorder |
| Sorting.LexCompareFirstDecides | crates/velesdb-core/src/collection/search/query/ordering.rs:111-162 | the chained comparison is equal exactly when every key compares equal, and otherwise is the answer of the first key that does not |
| Sorting.LexTotalPreorder | crates/velesdb-core/src/collection/search/query/ordering.rs:111-162 | chaining total preorders key after key gives a total preorder, so the sort by several ORDER BY keys is well defined |
| StreamingBfs.Reach | crates/velesdb-python/src/graph_store.rs:205-267 | the nodes a traversal can reach include the start and every edge target |
| StreamingBfs.ExpandEntry | crates/velesdb-python/src/graph_store.rs:232-263 | the loop over a dequeued node's outgoing edges either stops with the result that reaches `max_visited`, or reports every admitted edge and queues each new target once; the queue, the visited set and the results only grow, and a stop leaves at least `max_visited` results |
| StreamingBfs.Completed | crates/velesdb-python/src/graph_store.rs:227-264 | a run that empties the queue has reported every admitted edge of the start and of every node reached below `max_depth` |
| StreamingBfs.TraverseBfsStreaming | crates/velesdb-python/src/graph_store.rs:205-267 | at most `max_visited` results (one when it is 0); every result is an admitted edge of the store at a depth from 1 to `max_depth`, leaving the start or an earlier result's target one level further in; depths never decrease and each source's results are contiguous; a run that ends below `max_visited` is complete |
| Trigrams.ExtractTrigrams | crates/velesdb-core/src/index/trigram/accelerator.rs:101-112 | the trigrams are exactly the 3-byte windows of the text, at most its length less two, and none for a text shorter than 3 bytes |
| Trigrams.InfixTrigrams | crates/velesdb-core/src/index/trigram/accelerator.rs:101-112 | every trigram of a piece of a text is a trigram of the whole text |
| Trigrams.Candidates | crates/velesdb-core/src/index/trigram/accelerator.rs:56-80 | a document is a candidate exactly when the pattern has trigrams, the index holds each of them, and each of their bitmaps names the document |
| Trigrams.SearchSingle | crates/velesdb-core/src/index/trigram/accelerator.rs:56-80 | whatever order the trigrams are visited in, the search returns exactly the candidates |
| Trigrams.HasTrigram | crates/velesdb-core/src/index/trigram/accelerator.rs:101-112 | a text of 3 bytes or more has a trigram |
| Trigrams.SearchFindsContaining | crates/velesdb-core/src/index/trigram/accelerator.rs:56-80 | with an index that names a document under every trigram of its text, the search for a pattern of 3 bytes or more occurring in that text returns the document: no false negatives |
| Trigrams.OccurrenceTrigrams | crates/velesdb-core/src/index/trigram/accelerator.rs:101-112 | a pattern occurring in a text has only trigrams of that text |
| Trigrams.CandidatesFromText | crates/velesdb-core/src/index/trigram/accelerator.rs:56-80 | a document indexed under all its text's trigrams is a candidate for any pattern of 3 bytes or more whose trigrams are among them |
| Trigrams.BatchSearch | crates/velesdb-core/src/index/trigram/accelerator.rs:44-53 | one candidate set per pattern, in order, each the single-pattern search result |
| Trigrams.BatchExtract | crates/velesdb-core/src/index/trigram/accelerator.rs:93-98 | one trigram set per document, in order, each exactly that document's windows |
| Trigrams.AutoSelect | crates/velesdb-core/src/index/trigram/accelerator.rs:136-148 | the GPU is chosen exactly when the feature is built, a GPU is present and there are over 500 000 documents, or over 100 000 with more than 10 patterns |
| Trigrams.NoFeatureMeansCpu | crates/velesdb-core/src/index/trigram/accelerator.rs:136-148 | without the GPU feature every workload runs on the CPU |
| UnionQuery.CountSimilarity | crates/velesdb-core/src/collection/search/query/union_query.rs:147-148 | the count is positive exactly when the tree has a similarity leaf |
| UnionQuery.SplitOr | crates/velesdb-core/src/collection/search/query/union_query.rs:137-212 | at least one of the similarity and metadata parts is present, and the metadata part holds no similarity leaf |
| UnionQuery.SplitOrPreservesMeaning | crates/velesdb-core/src/collection/search/query/union_query.rs:137-212 | a record satisfies the WHERE clause exactly when it satisfies the similarity part or the metadata part, and the outer filter, whatever the OR-detection test answers |
| UnionQuery.Ids | crates/velesdb-core/src/collection/search/query/union_query.rs:66-94 | the ids of the results, one per result, in order |
| UnionQuery.LastWithId | crates/velesdb-core/src/collection/search/query/union_query.rs:66-74 | the last result with an id is one of the results, and there is none exactly when no result has the id |
| UnionQuery.FirstWithId | crates/velesdb-core/src/collection/search/query/union_query.rs:90-94 | the first result with an id is one of the results, and there is none exactly when no result has the id |
| UnionQuery.FirstWithIdAppend | crates/velesdb-core/src/collection/search/query/union_query.rs:90-94 | appending never displaces an id's first occurrence |
| UnionQuery.IndexOfId | crates/velesdb-core/src/collection/search/query/union_query.rs:73 | a found position holds the id, and none is found only when no entry has it |
| UnionQuery.Upsert | crates/velesdb-core/src/collection/search/query/union_query.rs:73 | inserting into the map keeps one entry per id, adds the new id, and leaves every other entry as it was |
| UnionQuery.InsertIfAbsent | crates/velesdb-core/src/collection/search/query/union_query.rs:93 | inserting only when absent leaves the map as it was when the id is present, and otherwise appends the result |
| UnionQuery.AddSimilarity | crates/velesdb-core/src/collection/search/query/union_query.rs:66-74 | the similarity phase keeps one entry per id and adds the ids found |
| UnionQuery.AddSimilarityPicksLast | crates/velesdb-core/src/collection/search/query/union_query.rs:66-74 | after the similarity phase an id found by the search holds its last result, and every other entry is untouched |
| UnionQuery.AddMetadata | crates/velesdb-core/src/collection/search/query/union_query.rs:90-94 | the metadata phase keeps one entry per id and adds the ids found |
| UnionQuery.AddMetadataPicksFirst | crates/velesdb-core/src/collection/search/query/union_query.rs:90-94 | after the metadata phase an entry is an earlier one, or the first metadata result of an id that was absent |
| UnionQuery.Merged | crates/velesdb-core/src/collection/search/query/union_query.rs:44-98 | the merged map holds one entry per id found by either search |
| UnionQuery.MergedHoldsWinners | crates/velesdb-core/src/collection/search/query/union_query.rs:44-98 | every merged entry is its id's last passing similarity result, or else its first metadata result |
| UnionQuery.WinnersPermutation | crates/velesdb-core/src/collection/search/query/union_query.rs:98-105 | reordering the merged entries keeps one entry per id, the same ids and the same winners |
| UnionQuery.ByScoreDescending | crates/velesdb-core/src/collection/search/query/union_query.rs:101-105 | the comparator is a total preorder placing a result first exactly when its score is at least the other's |
| UnionQuery.PrefixDominates | crates/velesdb-core/src/collection/search/query/union_query.rs:101-106 | in a list sorted by descending score everything in a prefix scores at least as high as everything after it |
| UnionQuery.UnionMergeSpec | crates/velesdb-core/src/collection/search/query/union_query.rs:44-108 | the union has unique ids, as many results as distinct ids up to the limit, each id's winning result, descending scores, and no dropped result scores above a kept one |
| UnionQuery.TakeKeepsIds | crates/velesdb-core/src/collection/search/query/union_query.rs:106 | cutting to the limit keeps ids unique and the order sorted |
| Vacuum.LiveRows | crates/velesdb-core/src/column_store/vacuum.rs:187-189 | the live rows below a count number at most that count |
| Vacuum.LiveRowsExact | crates/velesdb-core/src/column_store/vacuum.rs:187-189 | the listing holds exactly the live rows below the count, each once, in ascending order |
| Vacuum.LiveRowsPrefix | crates/velesdb-core/src/column_store/vacuum.rs:187-189 | the live rows below a smaller count are the first live rows below any larger one |
| Vacuum.LiveRowAt | crates/velesdb-core/src/column_store/vacuum.rs:51-59 | a live row sits at the position given by the number of live rows before it |
| Vacuum.OldToNew | crates/velesdb-core/src/column_store/vacuum.rs:51-59 | exactly the live rows below the row count are renumbered, each to the number of live rows before it |
| Vacuum.OldToNewOrdered | crates/velesdb-core/src/column_store/vacuum.rs:51-60 | the renumbering keeps the live rows' order, stays below the new row count, and is undone by the live-row listing |
| Vacuum.Compact | crates/velesdb-core/src/column_store/vacuum.rs:109-154 | a compacted column has one value per live position |
| Vacuum.CompactSelectsLive | crates/velesdb-core/src/column_store/vacuum.rs:109-154 | compaction keeps exactly the values at live positions, in their order |
| Vacuum.CompactColumn | crates/velesdb-core/src/column_store/vacuum.rs:105-155 | the compacted column keeps its type, has the live positions' length, and reclaims the value width for every dropped position |
| Vacuum.CompactColumns | crates/velesdb-core/src/column_store/vacuum.rs:62-67 | every column is still present, and exactly the columns visited are compacted |
| Vacuum.RemapPrimary | crates/velesdb-core/src/column_store/vacuum.rs:69-83 | a primary key survives exactly when its row does, it points at the row's new number, and the reverse map holds exactly the inverse of the new index |
| Vacuum.RemapExpiry | crates/velesdb-core/src/column_store/vacuum.rs:85-92 | every expiry of a surviving row moves to its new number, and every new entry comes from a live row's expiry |
| Vacuum.Vacuum | crates/velesdb-core/src/column_store/vacuum.rs:32-102 | without tombstones nothing changes and the statistics report zero; otherwise the tombstones are cleared, their count is reported, and the row count becomes the number of live rows |
| Vacuum.VacuumKeepsLiveRows | crates/velesdb-core/src/column_store/vacuum.rs:62-83 | after a vacuum each visited column holds its live rows' values in order, and a primary key survives exactly when its row was live, pointing at the row's new number |
| Vacuum.ShouldVacuum | crates/velesdb-core/src/column_store/vacuum.rs:163-169 | never for an empty store; otherwise exactly when the deleted rows reach the threshold share of all rows |
| RecordWhere.ContainsGraphMatch | crates/velesdb-core/src/collection/search/query/where_eval.rs:39-51 | true exactly when the tree has a graph MATCH leaf |
| RecordWhere.RequiresVectorEval | crates/velesdb-core/src/collection/search/query/where_eval.rs:54-66 | true exactly when the tree has a similarity leaf |
| RecordWhere.ThresholdMatchMirror | crates/velesdb-core/src/collection/search/query/where_eval.rs:182-200 | a distance metric behaves as the similarity metric on negated score and threshold, not-equal is the negation of equal, and at-least is greater or equal |
| RecordWhere.Preds | crates/velesdb-core/src/collection/search/query/where_eval.rs:14-16 | the predicates of the cache, one per entry, in order |
| RecordWhere.Position | crates/velesdb-core/src/collection/search/query/where_eval.rs:26 | a found position holds the predicate, and nothing is found only when no entry holds it |
| RecordWhere.GetOrCompute | crates/velesdb-core/src/collection/search/query/where_eval.rs:19-34 | on a valid cache the lookup succeeds exactly when the anchor computation does, returns its set and keeps the cache valid; the cache is only ever extended, and a cached predicate leaves it as it is |
| RecordWhere.EvalRecordValue | crates/velesdb-core/src/collection/search/query/where_eval.rs:104-216 | with a valid cache a successful evaluation agrees with the boolean meaning of the clause over the leaf values and keeps the cache valid |
| RecordWhere.EvalRecordTotal | crates/velesdb-core/src/collection/search/query/where_eval.rs:104-216 | with a valid cache the evaluation succeeds when every leaf does |
| RecordWhere.EvalRecordFailure | crates/velesdb-core/src/collection/search/query/where_eval.rs:104-216 | with a valid cache the evaluation fails only when some leaf fails |
| RecordWhere.ApplyWhereFromValue | crates/velesdb-core/src/collection/search/query/where_eval.rs:76-99 | a successful pass keeps exactly the results satisfying the clause, in order, whatever the cache held |
| RecordWhere.ApplyWhereFromTotal | crates/velesdb-core/src/collection/search/query/where_eval.rs:76-99 | a pass succeeds when no leaf fails on any result |
| RecordWhere.ApplyWhereSound | crates/velesdb-core/src/collection/search/query/where_eval.rs:69-100 | the filtered list is exactly the results satisfying the clause, each judged alone, in order, so the shared cache changes only how often anchors are computed; and it succeeds whenever no leaf fails |
| Grouping.Partition | crates/velesdb-core/src/collection/search/query/match_exec/return_agg.rs:65-86 | every element goes to exactly one side |
| Grouping.PartitionMembers | crates/velesdb-core/src/collection/search/query/match_exec/return_agg.rs:65-86 | the rejected side holds exactly the rejected elements, every accepted element's image is on the other side, and that side is empty exactly when nothing is accepted |
| Grouping.PartitionAppend | crates/velesdb-core/src/collection/search/query/match_exec/return_agg.rs:65-86 | splitting a concatenation concatenates the splits, keeping order on both sides |
| Grouping.KeysOf | crates/velesdb-core/src/collection/search/query/match_exec/return_agg.rs:147-148 | one key per element, in order |
| Grouping.NoMembers | crates/velesdb-core/src/collection/search/query/match_exec/return_agg.rs:147-153 | a key no element has selects no member |
| Grouping.GroupStep | crates/velesdb-core/src/collection/search/query/match_exec/return_agg.rs:147-153 | adding one element to the grouping state keeps it the grouping state of the longer list |
| Grouping.GroupsNonEmpty | crates/velesdb-core/src/collection/search/query/match_exec/return_agg.rs:147-153 | every group holds an element |
| Grouping.GroupBy | crates/velesdb-core/src/collection/search/query/match_exec/return_agg.rs:144-153 | the keys are listed in order of first appearance, the map has exactly those keys, and each key's group is exactly the elements with that key, in order, and non-empty |
| Grouping.GroupsPartition | crates/velesdb-core/src/collection/search/query/match_exec/return_agg.rs:147-160 | every element lies in its own key's group, whose first member is the first element with that key |

## Left out

- Security.ValidateQuery: character classes are ASCII; Python 3's `\s`, `\w` and `\b` are Unicode-aware and IGNORECASE folds `ſ` to `s`. So the source rejects `"x; DROP t"` and `"x; ſELECT 1"` while the model accepts both, and the source accepts `"x; DROPé"` while the model rejects it.
- LegacyQuery.NormalizeLegacyQuery: identifiers, `\s` and `\b` are ASCII; the source leaves `"USING FUSION rrfé"` alone (no word boundary before `é`) and adds no `AS` to `"éFROM t a"`, where the model rewrites both.
- LegacyQuery.LikeMatch: ILIKE folds ASCII letters only, so `"äb"` and `"ÄB"` do not match here but do under `re.IGNORECASE`.
- LegacyQuery.MatchesFilter: the operator is lowered with ASCII folding, so `"LIKE"` (Kelvin sign) is not recognised as `like`, which Python's `str.lower` makes it.
- WalCodec.Store: the write position is an unbounded integer; the source's plain `+` (log_payload.rs:470-472) could overflow only past 2^64 bytes of log, which no file reaches. `Delete` follows the source's `fetch_add` with 64-bit wrap-around.
- Retrieval.AverageMetrics: averages the corrected `RecallAtK`, so a duplicated result does not lift a query's recall above 1 as in the source.
- JsonOrdering.ApplyOrderBy: states a sorted permutation of the input, not that the sort is stable.
- MemoryPool.Store: requires an index handed out by `allocate` and not freed, the caller obligation the source documents for its unchecked write.
- MemoryPool.Deallocate: requires an index that is not already on the free list, the safety obligation the source documents (an index from `allocate`, not deallocated before); a double deallocation, which would put the index on the free list twice, is not modelled.
- CompositeIndex: `node_count` (the sum of the id lists' lengths) and `memory_usage` (a byte estimate built from `size_of` of the host's layout) are not modelled; they only report on the index and change nothing.
- Floating point: `f32`/`f64` are exact reals. NaN scores, `partial_cmp` falling back to `Equal`, `total_cmp`, the `as f32` cast of similarity scores and rounding are not modelled; `ndcg_at_k` (log2 and powers) is not modelled.
- Concurrency: locks, atomics and compare-and-swap loops are modelled as sequential updates; rayon's parallel iteration is modelled by the per-start sequential results it collects; `TraversalStats` counters are not modelled.
- Hash-map and hash-set iteration order: where results follow it (index listing, covering-index lookup, vacuum column keys and primary keys, the union merge map, trigram candidate sets) the order is a parameter or the result is a set.
- Hashers: `DefaultHasher` and the composite-index key hash are parameters.
- The clock is a parameter (reindex cooldown, query timings); durations in vacuum statistics are not modelled.
- I/O: opening, reading, writing, flushing and syncing files are not modelled; the WAL and snapshot codecs work on byte sequences, and an I/O error is a result value.
- Host parsers and services: the VelesQL parser, the Python `re` engine, payload storage, `serde_json` text rendering, vector search, `filter_by_similarity`, `execute_scan_query` and `compute_metric_score` are parameters or given result lists.
- Union queries: the over-fetch sizes and the error for a similarity field other than `vector` (union_query.rs:47-88) are not modelled; `count_similarity_conditions` and `has_similarity_in_problematic_or` are not part of this model.
- Sharded traversal: the cross-shard rounds of `traverse_parallel` (sharded.rs:100-194) are not modelled, only its opening and `bfs_single_shard`.
- MATCH execution: the traversal branch of `execute_match` (mod.rs:162-227) and `execute_match_with_similarity` are not modelled; the start-node branch, the WHERE evaluation and RETURN aggregation are.
- `extract_vector_search` and `extract_all_similarity_conditions` are not modelled.
- Parallel traversal: `frontier.rs` is not part of this model.
- Memory pool: `prefetch` and `memory_usage` are not modelled (a CPU hint and a size estimate).
- Auto-reindex: event callbacks are not modelled; the `sensitive` and `conservative` presets are modelled as constants only.
- Operational metrics: Prometheus text rendering is not modelled; the counters and histogram buckets behind it are.
- Grouping keys: `build_group_key` joins values with `\x1F`; the model keys groups by the list of values, which is the same partition because JSON text escapes `\x1F`.
- StreamingBfs.Completed: when a run stops at `max_visited`, completeness of the reported set is not claimed.
- Similarity tolerances: the MATCH WHERE evaluator compares within `f32::EPSILON`; the record WHERE evaluator uses 0.001, as each source file does.

Points where the model follows the code rather than its comments or names:
- `_matches_filter` returns true when the field value or the pattern of a LIKE condition is not a string: a malformed condition lets the row through.
- A store record whose payload is cut short on WAL replay is an I/O error, while a short header or checksum only stops the replay.
- `compute_max_depth` falls back to the number of relationships when the summed hop bounds are 0.
- The WHERE evaluator is modelled in its four-argument form (with bindings); the three-argument call at `match_exec/mod.rs:141` is modelled as a call without bindings.

## Findings

| source | as written | input that shows it | evidently intended | confidence | as-written member | corrected member |
|---|---|---|---|---|---|---|
| crates/velesdb-core/src/collection/graph/cart/node.rs:246-249 | Node48 insert puts a new child in slot `num_children` | a Node48 with `num_children` 1 whose one child `Leaf([7])` sits in slot 1 under byte 1 (slot 0 freed by a removal); inserting 9 under byte 2 overwrites it and collecting gives `[9]` | the new child goes to a free slot and every live child is kept | high, not executed | CartProofs.Node48InsertLosesValue | CartProofs.Node48InsertKeepsValue |
| crates/velesdb-core/src/collection/search/query/join.rs:161-163 | when no join key is extracted the join returns an empty list at once | a LEFT join of one result (id 5) whose payload has no `sku` key returns `[]` | LEFT and FULL joins keep every left result, with null-filled right columns | high, not executed | Join.ExecuteJoinAsWrittenDropsLeft | Join.LeftJoinKeepsEveryResult |
| crates/velesdb-core/src/metrics/retrieval.rs:41-45 | recall counts every result found in the ground truth, duplicates included | ground truth `[1]`, results `[1, 1]` gives recall 2.0 | recall between 0 and 1: distinct relevant results over the ground truth size | high, not executed | Retrieval.RecallAsWrittenExceedsOne | Retrieval.RecallAtK |
| crates/velesdb-core/src/collection/graph/degree_router/mod.rs:317-320 | a promotion is counted whenever the target count passes 1000, even when the threshold keeps the storage a vector | threshold 2000 with 1000 targets; inserting target 1000 counts a promotion while the storage stays a vector | a promotion is counted only when the storage is actually promoted | medium, not executed | DegreeRouter.PromotionCountWithoutPromotion | DegreeRouter.RouterKeepsCount |
| crates/velesdb-core/src/collection/search/query/match_exec/return_agg.rs:208-214 | `COUNT(col)` counts every row where the column resolves, a stored `null` included | payload `{"x": null}`: `COUNT(p.x)` gives 1 | `COUNT(col)` counts non-null values only | high, not executed | ReturnAgg.CountColumnCountsNull | ReturnAgg.CountColumn |
| crates/velesdb-core/src/collection/search/query/match_exec/mod.rs:152-157 | the row is pushed before the limit is checked | `LIMIT 0` with one passing start node returns one row | at most `limit` rows | high, not executed | MatchExec.StartNodesLimitZero | MatchExec.StartNodesSpec |
| crates/velesdb-core/src/collection/search/query/parallel_traversal/sharded.rs:94-97 | a depth-0 result is pushed for every start node, whatever the visited-set insert returns | start nodes `[7, 7]` give two depth-0 results for node 7 | one depth-0 result per distinct start node | medium, not executed | ShardedTraversal.RepeatedStartReportedTwice | ShardedTraversal.StartResults |
| integrations/common/src/velesdb_common/security.py:299 | `re.match` with a `$`-anchored pattern accepts a trailing newline | `"abc\n"` is accepted as a collection name | names made only of the allowed characters | high, not executed | Security.CollectionNameTrailingNewlineAccepted | Security.ValidateCollectionName |
| integrations/common/src/velesdb_common/security.py:352 | range checks with `<` and `>` let NaN through | weight `NaN` is accepted | weights within the range, NaN rejected | high, not executed | Security.WeightNaNAccepted | Security.ValidateWeight |
| crates/velesdb-python/python/velesdb/__init__.py:28-41 | the LIKE regex is compiled without DOTALL and anchored with `$` | pattern `"a%"` does not match `"a\nb"`; pattern `"abc"` matches `"abc\n"` | `%` and `_` match any character, and the match covers the whole value | medium, not executed | LegacyQuery.LikeNewlineDiscrepancy | LegacyQuery.MatchesFilter |
