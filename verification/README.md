# PGMap: placement-group statistics map

A Dafny model of Ceph's monitor-side placement-group statistics map
(`PGMap`, `src/mon/PGMap.h`). The map holds two kinds of state.

- Authoritative tables: `pg_stat` (group id to group record), `osd_stat`
  (device id to device record), `pg_set`, the version, and the two sticky
  epoch markers `last_osdmap_epoch` and `last_pg_scan`.
- Soft-state aggregates: `num_pg`, the per-state buckets `num_pg_by_state`,
  the byte, kb and object totals for groups and devices, `num_osd`, and the
  `creating_pgs` index. These are kept in step with the tables by the
  `stat_*_add` / `stat_*_sub` bookkeeping.

The map changes in two ways. A versioned delta (`Incremental`) is applied
by `apply_incremental`. Or a persisted snapshot is loaded by `decode`, which
installs the tables, zeroes the aggregates and replays every stored record.

The model is functional. Records, maps and deltas are immutable datatypes.
Each loop of the source over a delta or table becomes a fold that visits the
keys in an unspecified order, and every property is stated so that it does
not depend on that order.

Files:

- `Sums.dfy` (module `Sums`): the sum of a projection over a finite map, and
  how it moves on insert, overwrite and erase.
- `Records.dfy` (module `Records`): group ids, device ids, the two record
  types, and the creating bit.
- `StatEngine.dfy` (module `StatEngine`): the aggregates, their from-scratch
  reference definitions (`PgSumsOf`, `OsdSumsOf`), and the four add/subtract
  operations with the lemmas tying them to the reference definitions.
- `PgMap.dfy` (module `PgMap`): the map, the delta, the consistency
  predicate `Valid`, `apply_incremental`, runs of deltas, and the load path
  (`stat_zero` plus the rebuild half of `decode`).
- `Scenarios.dfy` (module `Scenarios`): a two-delta history proved from the
  general contracts.

`Valid(m)` is the map's invariant. It holds when:

- every aggregate equals the sum or count over the current tables;
- `creating_pgs` is exactly the set of groups whose state has the creating bit;
- `pg_set` covers every key of `pg_stat`.

Where the code's evident intent and its behaviour differ, the model follows
the code:

- A version mismatch in `apply_incremental` is an `assert` (a process abort),
  not a returned error. It is modelled as a precondition.
- The aggregates, `creating_pgs` among them, sit under the source's
  "aggregate stats (soft state)" heading (line 99), so a load should rebuild
  them from the loaded tables. The code's `stat_zero` does not clear
  `creating_pgs`, which is modelled as written and corrected; see Findings.
- `decode` does not clear `pg_set`, so `pg_set` keeps every group id the map
  has ever held across reloads. This is modelled as written, by both the
  as-written and the corrected load, and is not a finding: `pg_set` is not
  among the soft-state aggregates, and the code only ever inserts into it.

## Model

| member | source | states |
|---|---|---|
| Sums.SumRemove | src/mon/PGMap.h:138-140 | Erasing a key takes exactly that key's value out of a total, whichever key the fold visited first. |
| Sums.SumUpdate | src/mon/PGMap.h:71-76 | Overwriting or inserting a key retracts the old value, if there was one, and adds the new one. |
| StatEngine.HistogramCounts | src/mon/PGMap.h:127 | A bucket of the per-state histogram exists exactly when some group is in that state. Its count equals the number of such groups. No bucket is zero. |
| StatEngine.HistogramInsert | src/mon/PGMap.h:127 | Incrementing the bucket of a new group's state, creating it at 1 when absent, gives the histogram of the enlarged table. |
| StatEngine.HistogramRemove | src/mon/PGMap.h:136-137 | Decrementing the bucket of a removed group's state, and erasing it when it reaches 0, gives the histogram of the reduced table. |
| StatEngine.HistogramTotal | src/mon/PGMap.h:126-127 | The bucket sizes add up to the number of groups in the table. |
| StatEngine.StatPgAddTracksTable | src/mon/PGMap.h:125-133 | stat_pg_add for a group not yet in the table turns that table's aggregates into those of the table with the record inserted. This covers count, buckets, three totals and the creating index. |
| StatEngine.StatPgSubTracksTable | src/mon/PGMap.h:134-143 | stat_pg_sub of a stored record turns the table's aggregates into those of the table with that group erased. |
| StatEngine.StatOsdAddTracksTable | src/mon/PGMap.h:144-150 | stat_osd_add for a new device turns the device aggregates into those of the enlarged table. |
| StatEngine.StatOsdSubTracksTable | src/mon/PGMap.h:151-157 | stat_osd_sub of a stored device record turns the device aggregates into those of the reduced table. |
| StatEngine.StatPgSubUndoesAdd | src/mon/PGMap.h:125-143 | stat_pg_sub right after stat_pg_add of the same record restores every group aggregate. Preconditions: the bucket it lands in was not a stale zero, and a creating group was not already indexed. |
| PgMap.FreshAddIsUndoable | src/mon/PGMap.h:125-143 | In a consistent map, for a group not in the table, both conditions under which stat_pg_sub undoes stat_pg_add hold: the target bucket is not a stale zero, and a creating group is not yet indexed. |
| StatEngine.StatOsdSubUndoesAdd | src/mon/PGMap.h:144-157 | stat_osd_sub right after stat_osd_add of the same record restores the device aggregates. |
| PgMap.ZeroPgSums | src/mon/PGMap.h:163-168 | The constructor's zero group aggregates are those of an empty group table. |
| PgMap.ZeroOsdSums | src/mon/PGMap.h:169-173 | The constructor's zero device aggregates are those of an empty device table. |
| PgMap.Empty | src/mon/PGMap.h:163-173 | The default map is at version 0, has empty tables, an empty pg_set and both epoch markers at 0, and is consistent. |
| PgMap.ValidBucketsSumToNumPg | src/mon/PGMap.h:100-101 | In a consistent map the per-state buckets add up to num_pg. |
| PgMap.UpsertPg | src/mon/PGMap.h:71-76 | One group upsert stores the new record and adds the id to pg_set only if it was not in the table. Nothing but the group table, pg_set and group aggregates changes. |
| PgMap.UpsertPgTracksTable | src/mon/PGMap.h:71-76 | Because the subtract comes before the overwrite and the add comes after, one upsert keeps the group aggregates equal to those of the table. This holds for a new group and for an existing one. |
| PgMap.ApplyPgUpdates | src/mon/PGMap.h:68-77 | The group-update loop leaves the group table equal to the old table overridden by the delta's updates. pg_set gains exactly the ids the table did not have. |
| PgMap.ApplyPgUpdatesTracksTable | src/mon/PGMap.h:68-77 | In whatever order the updates are visited, the group aggregates end up those of the updated table. |
| PgMap.UpsertOsd | src/mon/PGMap.h:81-84 | One device upsert stores the new record and touches nothing but the device table and device aggregates. |
| PgMap.UpsertOsdTracksTable | src/mon/PGMap.h:81-84 | One device upsert keeps the device aggregates equal to those of the table, whether or not the id was present. |
| PgMap.ApplyOsdUpdates | src/mon/PGMap.h:78-85 | The device-update loop leaves the device table equal to the old table overridden by the updates. |
| PgMap.ApplyOsdUpdatesTracksTable | src/mon/PGMap.h:78-85 | In whatever order the updates are visited, the device aggregates end up those of the updated table. |
| PgMap.RemoveOsd | src/mon/PGMap.h:89-92 | Removing one device id erases it from the table. An absent id leaves the whole map unchanged. |
| PgMap.RemoveOsdTracksTable | src/mon/PGMap.h:89-92 | One removal keeps the device aggregates equal to those of the table. |
| PgMap.ApplyOsdRemovals | src/mon/PGMap.h:86-92 | The removal loop leaves the device table with every removed id erased. Nothing else but the device aggregates changes. |
| PgMap.ApplyOsdRemovalsTracksTable | src/mon/PGMap.h:86-92 | After the removal loop the device aggregates are those of the reduced table. |
| PgMap.RemoveAbsentOsdsIsNoOp | src/mon/PGMap.h:86-92 | Removing ids none of which is in the device table changes nothing at all, aggregates included. |
| PgMap.ApplyIncremental | src/mon/PGMap.h:65-97 | Requires the delta to carry version + 1, and leaves version + 1. The group table becomes the old one overridden by the updates, and the device table becomes the old one overridden by the updates then minus the removals. So an id both updated and removed ends up absent. The epoch markers are sticky. |
| PgMap.ApplyPgUpdatesPreservesValid | src/mon/PGMap.h:68-77 | The group-update stage keeps the map consistent. |
| PgMap.ApplyOsdUpdatesPreservesValid | src/mon/PGMap.h:78-85 | The device-update stage keeps the map consistent. |
| PgMap.ApplyOsdRemovalsPreservesValid | src/mon/PGMap.h:86-92 | The device-removal stage keeps the map consistent. |
| PgMap.ApplyIncrementalPreservesValid | src/mon/PGMap.h:65-97 | Applying a delta to a consistent map yields a consistent one. Every count and total matches the tables, the buckets count the groups per state with none at zero, creating_pgs holds exactly the creating groups, and pg_set covers the group table. |
| PgMap.ApplyVersionOnlyDelta | src/mon/PGMap.h:62-67 | A default delta that carries only the next version number changes nothing but the version. |
| PgMap.ApplyAll | src/mon/PGMap.h:65-67 | A run of deltas with consecutive versions advances the version by exactly the run's length. A pg_set equal to the group ids stays equal to them. |
| PgMap.PgSetStaysExact | src/mon/PGMap.h:73-75 | One delta keeps pg_set equal to the group ids when it was equal before. |
| PgMap.ApplyAllPreservesValid | src/mon/PGMap.h:65-97 | Every map reached from a consistent one by a run of deltas is consistent. |
| PgMap.Install | src/mon/PGMap.h:183-187 | Reading the persisted fields back makes the map encode to the snapshot read, and leaves the aggregates and pg_set alone. |
| PgMap.StatZeroAsWritten | src/mon/PGMap.h:113-124 | stat_zero as written resets every count, total and bucket to those of empty tables, but keeps creating_pgs. |
| PgMap.StatZero | src/mon/PGMap.h:113-124 | The corrected stat_zero also clears creating_pgs, so the aggregates are exactly those of empty tables. |
| PgMap.AddAllPgs | src/mon/PGMap.h:189-194 | The group rebuild loop adds exactly the creating groups of the table to creating_pgs. |
| PgMap.AddAllOsds | src/mon/PGMap.h:195-198 | The device rebuild loop counts every device of the table. |
| PgMap.AddAllPgsRebuilds | src/mon/PGMap.h:189-194 | Replaying stat_pg_add over a table, starting from the aggregates of a disjoint table, gives the aggregates of the union, in any visiting order. |
| PgMap.AddAllOsdsRebuilds | src/mon/PGMap.h:195-198 | Replaying stat_osd_add over a table, starting from the aggregates of a disjoint table, gives the aggregates of the union. |
| PgMap.AddAllPgsIgnoresStartIndex | src/mon/PGMap.h:188-194 | The group rebuild only ever adds to creating_pgs. Starting points that differ only there end differing only there. |
| PgMap.Decode | src/mon/PGMap.h:182-199 | The load path with the corrected stat_zero yields a consistent map whatever state it started in. It encodes to the snapshot it read, and pg_set gains every stored group id. |
| PgMap.DecodeAsWritten | src/mon/PGMap.h:182-199 | The load path as written encodes to the snapshot it read. From any prior state it rebuilds num_pg, the buckets, the three group totals and every device aggregate exactly from the loaded tables, but leaves the old creating_pgs plus the stored creating groups. It is consistent exactly when every previously indexed group is a creating group of the loaded table. |
| PgMap.RebuildAgreesWithIncremental | src/mon/PGMap.h:182-199 | The corrected load of the encoding of any consistent map rebuilds exactly the aggregates and creating_pgs that were kept incrementally. |
| PgMap.DecodeEncodeRoundTrip | src/mon/PGMap.h:175-199 | Under the corrected load, a consistent map whose pg_set equals its group ids is restored exactly by loading its encoding into a fresh map. |
| PgMap.AsWrittenAgrees | src/mon/PGMap.h:182-199 | The load as written, of the encoding of any consistent map, rebuilds exactly the aggregates and creating_pgs kept incrementally, provided the map loaded into indexes only groups that are creating in the loaded table (a fresh map does). |
| PgMap.AsWrittenRoundTrip | src/mon/PGMap.h:175-199 | Under the load as written, a consistent map whose pg_set equals its group ids is restored exactly by loading its encoding into a fresh map. |
| PgMap.StaleCreatingSurvivesDecodeAsWritten | src/mon/PGMap.h:113-124 | Take a map at version 1 with one creating group, and load an empty snapshot into it. The as-written load keeps that group in creating_pgs and is inconsistent. The corrected load is consistent. |
| Scenarios.CreateThenActivate | src/mon/PGMap.h:65-97 | Version 1 creates group g (creating, 100 bytes) and device d (200 kb used). Version 2 activates g at 150 bytes and removes d. Afterwards the creating bucket is gone, the active bucket holds 1, creating_pgs is empty, and the device count and kb used are 0. |

## Left out

- Byte-level encoding (`::encode` / `::decode` on a bufferlist, lines 45-60 and 175-187): the wire helpers and record layouts are in `osd/osd_types.h`, which is not part of this model. A snapshot is a datatype holding the persisted fields, and a malformed byte stream cannot arise.
- Record internals: `pg_t`, `pg_stat_t` and `osd_stat_t` carry only the fields the bookkeeping reads.
- `PG_STATE_CREATING` is taken to be the single-bit mask 1. Its value lives in `osd/osd_types.h`. Every general property holds for any single-bit mask, because only the test `state & PG_STATE_CREATING` is used. The worked scenario also assumes that its active state word, 2, does not carry that bit.
- Integer widths: the `int64_t` aggregates, the `int` state keys and bucket counts of `num_pg_by_state` (line 100), `version_t` and `epoch_t` are unbounded integers, with no overflow. The signed-to-unsigned casts of `total_kb`, `total_avail_kb` and `total_used_kb` (lines 159-161) are not modelled.
- PgMap.ApplyIncremental: the version check (line 66) is a precondition, because the code aborts the process. There is no error result, so "a repeated version leaves the map unchanged" is not stated.
- Iteration order: `hash_map` and `std::map` orders are not modelled. The folds visit keys in an arbitrary order. The resulting tables are proved independent of it always, and the resulting aggregates whenever they match the tables before the loop (a `stat_pg_add` and `stat_pg_sub` on an absent bucket do not commute, so aggregates that are already off can end differently).
- The recency ("lru") ordering noted on `creating_pgs` (line 111): the code stores a plain `set`, so only membership is modelled.
- The encoding of a delta (lines 45-60): a delta is a datatype.
- Concurrency and the surrounding monitor machinery: none of it is in this file.

## Findings

| source | as written | input that shows it | evidently intended | confidence | as-written member | corrected member |
|---|---|---|---|---|---|---|
| src/mon/PGMap.h:113-124, 188 | `stat_zero` resets every aggregate except `creating_pgs`, so `decode` into a map that was already in use keeps its old creating groups. | Apply a version-1 delta that inserts a creating group, then decode an empty snapshot into that map: the group stays in `creating_pgs` with no record in `pg_stat`. | Loading rebuilds every derived value from the loaded tables, `creating_pgs` included. | medium; not executed | PgMap.DecodeAsWritten, PgMap.StaleCreatingSurvivesDecodeAsWritten | PgMap.Decode |
