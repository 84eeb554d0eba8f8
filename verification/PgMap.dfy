/**
 The placement-group map: the authoritative tables, the soft-state
 aggregates kept in step with them, versioned incremental updates and the
 rebuild-on-load path.

 The loops of the source over a delta's maps and sets become folds that
 visit the keys one at a time in an unspecified order; every result below is
 stated in a form that does not depend on that order.
 */
module PgMap {
  import opened Records
  import opened Sums
  import opened StatEngine

  /* The map proper (authoritative) plus its aggregates (soft state). */
  datatype PGMap = PGMap(
    version: nat,
    lastOsdmapEpoch: nat,
    lastPgScan: nat,
    pgStat: map<PgId, PgStat>,
    pgSet: set<PgId>,
    osdStat: map<OsdId, OsdStat>,
    pg: PgSums,
    osd: OsdSums)

  /* A delta from one version of the map to the next. */
  datatype Incremental = Incremental(
    version: nat,
    pgStatUpdates: map<PgId, PgStat>,
    osdStatUpdates: map<OsdId, OsdStat>,
    osdStatRm: set<OsdId>,
    osdmapEpoch: nat,
    pgScan: nat)

  /* The persisted form of a map: version, both tables and the two epoch
     markers. Neither the aggregates nor pg_set are written. */
  datatype Snapshot = Snapshot(
    version: nat,
    pgStat: map<PgId, PgStat>,
    osdStat: map<OsdId, OsdStat>,
    lastOsdmapEpoch: nat,
    lastPgScan: nat)

  /* The map's invariant: every aggregate is the exact sum or count over the
     current tables, creating_pgs holds exactly the creating groups, and
     pg_set covers every group of the table. */
  ghost predicate Valid(m: PGMap)
  {
    && m.pg == PgSumsOf(m.pgStat)
    && m.osd == OsdSumsOf(m.osdStat)
    && m.pgStat.Keys <= m.pgSet
  }

  /* In a consistent map the per-state buckets add up to num_pg. */
  lemma ValidBucketsSumToNumPg(m: PGMap)
    requires Valid(m)
    ensures Sum(m.pg.numPgByState, BucketSize) == m.pg.numPg
  {
    HistogramTotal(m.pgStat);
  }

  /* In a consistent map, adding a record for a group not in the table can
     always be undone by subtracting it again. */
  lemma FreshAddIsUndoable(m: PGMap, id: PgId, s: PgStat)
    requires Valid(m)
    requires id !in m.pgStat
    ensures s.state in m.pg.numPgByState ==> m.pg.numPgByState[s.state] != 0
    ensures IsCreating(s) ==> id !in m.pg.creatingPgs
    ensures StatPgSub(StatPgAdd(m.pg, id, s), id, s) == m.pg
  {
    HistogramCounts(m.pgStat, s.state);
    StatPgSubUndoesAdd(m.pg, id, s);
  }

  /*
   * Construction
   */

  /* The all-zero aggregates. */
  function ZeroPgSums(): (a: PgSums)
    ensures a == PgSumsOf(map[])
  {
    var a := PgSums(0, map[], 0, 0, 0, {});
    assert Histogram(map[]) == map[];
    a
  }

  function ZeroOsdSums(): (a: OsdSums)
    ensures a == OsdSumsOf(map[])
  {
    OsdSums(0, 0, 0, 0, 0)
  }

  /* The default-constructed map: version 0, no records, zero aggregates. */
  function Empty(): (m: PGMap)
    ensures Valid(m)
    ensures m.version == 0 && m.pgStat == map[] && m.osdStat == map[]
    ensures m.pgSet == {} && m.lastOsdmapEpoch == 0 && m.lastPgScan == 0
  {
    PGMap(0, 0, 0, map[], {}, map[], ZeroPgSums(), ZeroOsdSums())
  }

  /* The default-constructed delta: version 0, nothing to change. */
  function NewIncremental(): Incremental
  {
    Incremental(0, map[], map[], {}, 0, 0)
  }

  /*
   * Applying a delta
   */

  /* One step of the group-update loop: retract the stored record if any,
     record a newly seen group in pg_set, install the new record, add it. */
  function UpsertPg(m: PGMap, id: PgId, s: PgStat): (r: PGMap)
    ensures r.pgStat == m.pgStat[id := s]
    ensures r.pgSet == m.pgSet + ({id} - m.pgStat.Keys)
    ensures r.(pgStat := m.pgStat, pgSet := m.pgSet, pg := m.pg) == m
  {
    var pg := if id in m.pgStat then StatPgSub(m.pg, id, m.pgStat[id]) else m.pg;
    var pgSet := if id in m.pgStat then m.pgSet else m.pgSet + {id};
    m.(pgStat := m.pgStat[id := s], pgSet := pgSet, pg := StatPgAdd(pg, id, s))
  }

  /* Subtract-before-overwrite, add-after: one upsert keeps the group
     aggregates equal to those of the table, for a new and an existing group
     alike. */
  lemma UpsertPgTracksTable(m: PGMap, id: PgId, s: PgStat)
    requires m.pg == PgSumsOf(m.pgStat)
    ensures UpsertPg(m, id, s).pg == PgSumsOf(m.pgStat[id := s])
  {
    if id in m.pgStat {
      StatPgSubTracksTable(m.pgStat, id);
      assert (m.pgStat - {id})[id := s] == m.pgStat[id := s];
      StatPgAddTracksTable(m.pgStat - {id}, id, s);
    } else {
      StatPgAddTracksTable(m.pgStat, id, s);
    }
  }

  /* The group-update loop over every entry of `upd`. */
  ghost function ApplyPgUpdates(m: PGMap, upd: map<PgId, PgStat>): (r: PGMap)
    ensures r.pgStat == m.pgStat + upd
    ensures r.pgSet == m.pgSet + (upd.Keys - m.pgStat.Keys)
    ensures r.(pgStat := m.pgStat, pgSet := m.pgSet, pg := m.pg) == m
    decreases |upd|
  {
    if |upd| == 0 then
      MapOverrideEmpty(m.pgStat, upd);
      m
    else
      var id := Pick(upd);
      var rest := upd - {id};
      MapRemoveCard(upd, id);
      MapOverrideStep(m.pgStat, upd, id);
      PgSetStep(m.pgSet, m.pgStat.Keys, upd.Keys, id);
      var m' := UpsertPg(m, id, upd[id]);
      assert m'.pgStat.Keys == m.pgStat.Keys + {id};
      ApplyPgUpdates(m', rest)
  }

  /* pg_set grows by the newly seen groups of one entry, then of the rest. */
  lemma PgSetStep(pgSet: set<PgId>, known: set<PgId>, upd: set<PgId>, id: PgId)
    requires id in upd
    ensures pgSet + ({id} - known) + ((upd - {id}) - (known + {id})) == pgSet + (upd - known)
  {
  }

  /* Whatever order the group updates are visited in, the aggregates end up
     those of the updated table. */
  lemma {:induction false} ApplyPgUpdatesTracksTable(m: PGMap, upd: map<PgId, PgStat>)
    requires m.pg == PgSumsOf(m.pgStat)
    ensures ApplyPgUpdates(m, upd).pg == PgSumsOf(m.pgStat + upd)
    decreases |upd|
  {
    if |upd| != 0 {
      var id := Pick(upd);
      var rest := upd - {id};
      MapRemoveCard(upd, id);
      MapOverrideStep(m.pgStat, upd, id);
      UpsertPgTracksTable(m, id, upd[id]);
      ApplyPgUpdatesTracksTable(UpsertPg(m, id, upd[id]), rest);
    } else {
      assert upd == map[];
      assert m.pgStat + upd == m.pgStat;
    }
  }

  /* One step of the device-update loop. */
  function UpsertOsd(m: PGMap, id: OsdId, s: OsdStat): (r: PGMap)
    ensures r.osdStat == m.osdStat[id := s]
    ensures r.(osdStat := m.osdStat, osd := m.osd) == m
  {
    var osd := if id in m.osdStat then StatOsdSub(m.osd, m.osdStat[id]) else m.osd;
    m.(osdStat := m.osdStat[id := s], osd := StatOsdAdd(osd, s))
  }

  lemma UpsertOsdTracksTable(m: PGMap, id: OsdId, s: OsdStat)
    requires m.osd == OsdSumsOf(m.osdStat)
    ensures UpsertOsd(m, id, s).osd == OsdSumsOf(m.osdStat[id := s])
  {
    if id in m.osdStat {
      StatOsdSubTracksTable(m.osdStat, id);
      assert (m.osdStat - {id})[id := s] == m.osdStat[id := s];
      StatOsdAddTracksTable(m.osdStat - {id}, id, s);
    } else {
      StatOsdAddTracksTable(m.osdStat, id, s);
    }
  }

  /* The device-update loop over every entry of `upd`. */
  ghost function ApplyOsdUpdates(m: PGMap, upd: map<OsdId, OsdStat>): (r: PGMap)
    ensures r.osdStat == m.osdStat + upd
    ensures r.(osdStat := m.osdStat, osd := m.osd) == m
    decreases |upd|
  {
    if |upd| == 0 then
      MapOverrideEmpty(m.osdStat, upd);
      m
    else
      var id := Pick(upd);
      MapRemoveCard(upd, id);
      MapOverrideStep(m.osdStat, upd, id);
      ApplyOsdUpdates(UpsertOsd(m, id, upd[id]), upd - {id})
  }

  /* Whatever order the device updates are visited in, the aggregates end up
     those of the updated table. */
  lemma {:induction false} ApplyOsdUpdatesTracksTable(m: PGMap, upd: map<OsdId, OsdStat>)
    requires m.osd == OsdSumsOf(m.osdStat)
    ensures ApplyOsdUpdates(m, upd).osd == OsdSumsOf(m.osdStat + upd)
    decreases |upd|
  {
    if |upd| != 0 {
      var id := Pick(upd);
      MapRemoveCard(upd, id);
      MapOverrideStep(m.osdStat, upd, id);
      UpsertOsdTracksTable(m, id, upd[id]);
      ApplyOsdUpdatesTracksTable(UpsertOsd(m, id, upd[id]), upd - {id});
    } else {
      assert upd == map[];
      assert m.osdStat + upd == m.osdStat;
    }
  }

  /* One step of the device-removal loop: an id that is present is
     retracted and erased; an absent id is skipped. */
  function RemoveOsd(m: PGMap, id: OsdId): (r: PGMap)
    ensures r.osdStat == m.osdStat - {id}
    ensures r.(osdStat := m.osdStat, osd := m.osd) == m
    ensures id !in m.osdStat ==> r == m
  {
    if id in m.osdStat then
      m.(osd := StatOsdSub(m.osd, m.osdStat[id]), osdStat := m.osdStat - {id})
    else
      assert m.osdStat - {id} == m.osdStat;
      m
  }

  lemma RemoveOsdTracksTable(m: PGMap, id: OsdId)
    requires m.osd == OsdSumsOf(m.osdStat)
    ensures RemoveOsd(m, id).osd == OsdSumsOf(m.osdStat - {id})
  {
    if id in m.osdStat {
      StatOsdSubTracksTable(m.osdStat, id);
    }
  }

  /* The device-removal loop over every id of `rm`. */
  ghost function ApplyOsdRemovals(m: PGMap, rm: set<OsdId>): (r: PGMap)
    ensures r.osdStat == m.osdStat - rm
    ensures r.(osdStat := m.osdStat, osd := m.osd) == m
    decreases rm
  {
    if rm == {} then
      assert m.osdStat - rm == m.osdStat;
      m
    else
      var id := PickElem(rm);
      MapEraseStep(m.osdStat, rm, id);
      ApplyOsdRemovals(RemoveOsd(m, id), rm - {id})
  }

  lemma {:induction false} ApplyOsdRemovalsTracksTable(m: PGMap, rm: set<OsdId>)
    requires m.osd == OsdSumsOf(m.osdStat)
    ensures ApplyOsdRemovals(m, rm).osd == OsdSumsOf(m.osdStat - rm)
    decreases rm
  {
    if rm != {} {
      var id := PickElem(rm);
      MapEraseStep(m.osdStat, rm, id);
      RemoveOsdTracksTable(m, id);
      ApplyOsdRemovalsTracksTable(RemoveOsd(m, id), rm - {id});
    } else {
      assert m.osdStat - rm == m.osdStat;
    }
  }

  /* Removing ids none of which is in the device table changes nothing at
     all, aggregates included. */
  lemma {:induction false} RemoveAbsentOsdsIsNoOp(m: PGMap, rm: set<OsdId>)
    requires rm !! m.osdStat.Keys
    ensures ApplyOsdRemovals(m, rm) == m
    decreases rm
  {
    if rm != {} {
      var id := PickElem(rm);
      assert RemoveOsd(m, id) == m;
      RemoveAbsentOsdsIsNoOp(m, rm - {id});
    }
  }

  /* An epoch marker is overwritten only by a non-zero value. */
  function Sticky(kept: nat, delta: nat): nat
  {
    if delta != 0 then delta else kept
  }

  /* apply_incremental: the delta must be for the next version. Group
     updates run first, then device updates, then device removals, then the
     epoch markers. */
  ghost function ApplyIncremental(m: PGMap, inc: Incremental): (r: PGMap)
    requires inc.version == m.version + 1
    ensures r.version == m.version + 1
    ensures r.pgStat == m.pgStat + inc.pgStatUpdates
    ensures r.pgSet == m.pgSet + (inc.pgStatUpdates.Keys - m.pgStat.Keys)
    ensures r.osdStat == (m.osdStat + inc.osdStatUpdates) - inc.osdStatRm
    ensures inc.osdmapEpoch == 0 ==> r.lastOsdmapEpoch == m.lastOsdmapEpoch
    ensures inc.osdmapEpoch != 0 ==> r.lastOsdmapEpoch == inc.osdmapEpoch
    ensures inc.pgScan == 0 ==> r.lastPgScan == m.lastPgScan
    ensures inc.pgScan != 0 ==> r.lastPgScan == inc.pgScan
  {
    var m1 := m.(version := m.version + 1);
    var m2 := ApplyPgUpdates(m1, inc.pgStatUpdates);
    var m3 := ApplyOsdUpdates(m2, inc.osdStatUpdates);
    var m4 := ApplyOsdRemovals(m3, inc.osdStatRm);
    m4.(lastOsdmapEpoch := Sticky(m4.lastOsdmapEpoch, inc.osdmapEpoch),
        lastPgScan := Sticky(m4.lastPgScan, inc.pgScan))
  }

  lemma ApplyPgUpdatesPreservesValid(m: PGMap, upd: map<PgId, PgStat>)
    requires Valid(m)
    ensures Valid(ApplyPgUpdates(m, upd))
  {
    ApplyPgUpdatesTracksTable(m, upd);
  }

  lemma ApplyOsdUpdatesPreservesValid(m: PGMap, upd: map<OsdId, OsdStat>)
    requires Valid(m)
    ensures Valid(ApplyOsdUpdates(m, upd))
  {
    ApplyOsdUpdatesTracksTable(m, upd);
  }

  lemma ApplyOsdRemovalsPreservesValid(m: PGMap, rm: set<OsdId>)
    requires Valid(m)
    ensures Valid(ApplyOsdRemovals(m, rm))
  {
    ApplyOsdRemovalsTracksTable(m, rm);
  }

  /* Applying a delta to a consistent map yields a consistent map: every
     aggregate is again the sum or count over the new tables, creating_pgs
     again holds exactly the creating groups, and pg_set still covers the
     group table. */
  lemma ApplyIncrementalPreservesValid(m: PGMap, inc: Incremental)
    requires inc.version == m.version + 1
    requires Valid(m)
    ensures Valid(ApplyIncremental(m, inc))
  {
    var m1 := m.(version := m.version + 1);
    var m2 := ApplyPgUpdates(m1, inc.pgStatUpdates);
    var m3 := ApplyOsdUpdates(m2, inc.osdStatUpdates);
    var m4 := ApplyOsdRemovals(m3, inc.osdStatRm);
    ApplyPgUpdatesPreservesValid(m1, inc.pgStatUpdates);
    ApplyOsdUpdatesPreservesValid(m2, inc.osdStatUpdates);
    ApplyOsdRemovalsPreservesValid(m3, inc.osdStatRm);
    var r := m4.(lastOsdmapEpoch := Sticky(m4.lastOsdmapEpoch, inc.osdmapEpoch),
                 lastPgScan := Sticky(m4.lastPgScan, inc.pgScan));
    assert Valid(r);
    assert ApplyIncremental(m, inc) == r;
  }

  /* A delta that carries nothing but the next version number leaves every
     table, aggregate and epoch marker as it was. */
  lemma ApplyVersionOnlyDelta(m: PGMap)
    ensures ApplyIncremental(m, NewIncremental().(version := m.version + 1)) == m.(version := m.version + 1)
  {
    var m1 := m.(version := m.version + 1);
    var inc := NewIncremental().(version := m.version + 1);
    assert ApplyPgUpdates(m1, inc.pgStatUpdates) == m1;
    assert ApplyOsdUpdates(m1, inc.osdStatUpdates) == m1;
    assert ApplyOsdRemovals(m1, inc.osdStatRm) == m1;
  }

  /*
   * Sequences of deltas
   */

  /* The deltas carry the versions after `v`, one by one, with no gap. */
  ghost predicate Consecutive(v: nat, incs: seq<Incremental>)
  {
    forall i | 0 <= i < |incs| :: incs[i].version == v + i + 1
  }

  /* Applying a run of deltas in order. */
  ghost function ApplyAll(m: PGMap, incs: seq<Incremental>): (r: PGMap)
    requires Consecutive(m.version, incs)
    ensures r.version == m.version + |incs|
    ensures m.pgSet == m.pgStat.Keys ==> r.pgSet == r.pgStat.Keys
    decreases |incs|
  {
    if |incs| == 0 then m
    else
      var m' := ApplyIncremental(m, incs[0]);
      PgSetStaysExact(m, incs[0]);
      assert Consecutive(m'.version, incs[1..]) by {
        forall i | 0 <= i < |incs| - 1
          ensures incs[1..][i].version == m'.version + i + 1
        {
          assert incs[1..][i] == incs[i + 1];
        }
      }
      ApplyAll(m', incs[1..])
  }

  /* A map whose pg_set is exactly its group ids keeps that property. */
  lemma PgSetStaysExact(m: PGMap, inc: Incremental)
    requires inc.version == m.version + 1
    ensures m.pgSet == m.pgStat.Keys ==>
              ApplyIncremental(m, inc).pgSet == ApplyIncremental(m, inc).pgStat.Keys
  {
  }

  /* Every map reached from a consistent one by a run of deltas is
     consistent; in particular every map reached from the empty one. */
  lemma {:induction false} ApplyAllPreservesValid(m: PGMap, incs: seq<Incremental>)
    requires Consecutive(m.version, incs)
    requires Valid(m)
    ensures Valid(ApplyAll(m, incs))
    decreases |incs|
  {
    if |incs| != 0 {
      ApplyIncrementalPreservesValid(m, incs[0]);
      ApplyAllPreservesValid(ApplyIncremental(m, incs[0]), incs[1..]);
    }
  }

  /*
   * Persistence and the rebuild on load
   */

  /* encode writes the version, both tables and the epoch markers. */
  function Encode(m: PGMap): Snapshot
  {
    Snapshot(m.version, m.pgStat, m.osdStat, m.lastOsdmapEpoch, m.lastPgScan)
  }

  /* The first half of decode: the persisted fields are read back, the
     aggregates and pg_set are left as they were. */
  function Install(m: PGMap, snap: Snapshot): (r: PGMap)
    ensures Encode(r) == snap
    ensures r.pgSet == m.pgSet && r.pg == m.pg && r.osd == m.osd
  {
    m.(version := snap.version, pgStat := snap.pgStat, osdStat := snap.osdStat,
       lastOsdmapEpoch := snap.lastOsdmapEpoch, lastPgScan := snap.lastPgScan)
  }

  /* stat_zero as the source writes it: every counter and total is reset
     and the per-state buckets are cleared, but creating_pgs is not. */
  function StatZeroAsWritten(m: PGMap): (r: PGMap)
    ensures r.pg == PgSumsOf(map[]).(creatingPgs := m.pg.creatingPgs)
    ensures r.osd == OsdSumsOf(map[])
    ensures r.(pg := m.pg, osd := m.osd) == m
  {
    m.(pg := ZeroPgSums().(creatingPgs := m.pg.creatingPgs), osd := ZeroOsdSums())
  }

  /* stat_zero with creating_pgs cleared too: the aggregates become those
     of empty tables. */
  function StatZero(m: PGMap): (r: PGMap)
    ensures r.pg == PgSumsOf(map[])
    ensures r.osd == OsdSumsOf(map[])
    ensures r.(pg := m.pg, osd := m.osd) == m
  {
    m.(pg := ZeroPgSums(), osd := ZeroOsdSums())
  }

  /* The rebuild loop over the group table: stat_pg_add for every record. */
  ghost function AddAllPgs(a: PgSums, t: map<PgId, PgStat>): (r: PgSums)
    ensures r.creatingPgs == a.creatingPgs + CreatingSet(t)
    decreases |t|
  {
    if |t| == 0 then
      assert CreatingSet(t) == {};
      a
    else
      var id := Pick(t);
      MapRemoveCard(t, id);
      CreatingSetInsert(t - {id}, id, t[id]);
      assert (t - {id})[id := t[id]] == t;
      AddAllPgs(StatPgAdd(a, id, t[id]), t - {id})
  }

  /* The rebuild loop over the device table: stat_osd_add for every record. */
  ghost function AddAllOsds(a: OsdSums, t: map<OsdId, OsdStat>): (r: OsdSums)
    ensures r.numOsd == a.numOsd + |t|
    decreases |t|
  {
    if |t| == 0 then a
    else
      var id := Pick(t);
      MapRemoveCard(t, id);
      AddAllOsds(StatOsdAdd(a, t[id]), t - {id})
  }

  /* Replaying stat_pg_add over a table, starting from the aggregates of a
     disjoint table, gives the aggregates of the union. */
  lemma {:induction false} AddAllPgsRebuilds(done: map<PgId, PgStat>, t: map<PgId, PgStat>)
    requires done.Keys !! t.Keys
    ensures AddAllPgs(PgSumsOf(done), t) == PgSumsOf(done + t)
    decreases |t|
  {
    if |t| == 0 {
      MapOverrideEmpty(done, t);
    } else {
      var id := Pick(t);
      MapRemoveCard(t, id);
      MapOverrideStep(done, t, id);
      StatPgAddTracksTable(done, id, t[id]);
      AddAllPgsRebuilds(done[id := t[id]], t - {id});
    }
  }

  lemma {:induction false} AddAllOsdsRebuilds(done: map<OsdId, OsdStat>, t: map<OsdId, OsdStat>)
    requires done.Keys !! t.Keys
    ensures AddAllOsds(OsdSumsOf(done), t) == OsdSumsOf(done + t)
    decreases |t|
  {
    if |t| == 0 {
      MapOverrideEmpty(done, t);
    } else {
      var id := Pick(t);
      MapRemoveCard(t, id);
      MapOverrideStep(done, t, id);
      StatOsdAddTracksTable(done, id, t[id]);
      AddAllOsdsRebuilds(done[id := t[id]], t - {id});
    }
  }

  /* The group rebuild does not look at creating_pgs except to add to it:
     two starting points that differ only there end up differing only
     there. */
  lemma {:induction false} AddAllPgsIgnoresStartIndex(a: PgSums, b: PgSums, t: map<PgId, PgStat>)
    requires a.(creatingPgs := b.creatingPgs) == b
    ensures AddAllPgs(a, t).(creatingPgs := AddAllPgs(b, t).creatingPgs) == AddAllPgs(b, t)
    decreases |t|
  {
    if |t| != 0 {
      var id := Pick(t);
      MapRemoveCard(t, id);
      AddAllPgsIgnoresStartIndex(StatPgAdd(a, id, t[id]), StatPgAdd(b, id, t[id]), t - {id});
    }
  }

  /* decode with stat_zero clearing creating_pgs: install the persisted
     fields, zero the aggregates, replay every stored record, and record
     every stored group in pg_set. The result is consistent whatever state
     the map was in before. */
  ghost function Decode(m: PGMap, snap: Snapshot): (r: PGMap)
    ensures Valid(r)
    ensures Encode(r) == snap
    ensures r.pgSet == m.pgSet + snap.pgStat.Keys
  {
    var z := StatZero(Install(m, snap));
    AddAllPgsRebuilds(map[], snap.pgStat);
    AddAllOsdsRebuilds(map[], snap.osdStat);
    MapOverrideOfEmpty(snap.pgStat);
    MapOverrideOfEmpty(snap.osdStat);
    z.(pg := AddAllPgs(z.pg, z.pgStat), pgSet := z.pgSet + z.pgStat.Keys, osd := AddAllOsds(z.osd, z.osdStat))
  }

  /* decode as the source writes it. It ends consistent exactly when every
     group creating_pgs held before is a creating group of the loaded
     table; any other group stays behind as a stale entry. */
  ghost function DecodeAsWritten(m: PGMap, snap: Snapshot): (r: PGMap)
    ensures Encode(r) == snap
    ensures r.pgSet == m.pgSet + snap.pgStat.Keys
    ensures r.pg.creatingPgs == m.pg.creatingPgs + CreatingSet(snap.pgStat)
    ensures r.pg.(creatingPgs := CreatingSet(snap.pgStat)) == PgSumsOf(snap.pgStat)
    ensures r.osd == OsdSumsOf(snap.osdStat)
    ensures Valid(r) <==> m.pg.creatingPgs <= CreatingSet(snap.pgStat)
  {
    var z := StatZeroAsWritten(Install(m, snap));
    assert Valid(Decode(m, snap));
    AddAllPgsIgnoresStartIndex(z.pg, ZeroPgSums(), snap.pgStat);
    z.(pg := AddAllPgs(z.pg, z.pgStat), pgSet := z.pgSet + z.pgStat.Keys, osd := AddAllOsds(z.osd, z.osdStat))
  }

  /* The rebuild on load and the incremental bookkeeping agree: decoding the
     encoding of any consistent map, into any map whatever, rebuilds exactly
     the aggregates and creating_pgs that were maintained incrementally. */
  lemma RebuildAgreesWithIncremental(m0: PGMap, m: PGMap)
    requires Valid(m)
    ensures Decode(m0, Encode(m)).pg == m.pg
    ensures Decode(m0, Encode(m)).osd == m.osd
  {
  }

  /* Round trip: a consistent map whose pg_set is exactly its group ids (as
     every map reached from the empty one is) is restored exactly by
     decoding its encoding into a fresh map. */
  lemma DecodeEncodeRoundTrip(m: PGMap)
    requires Valid(m)
    requires m.pgSet == m.pgStat.Keys
    ensures Decode(Empty(), Encode(m)) == m
  {
    var r := Decode(Empty(), Encode(m));
    assert r.pgSet == m.pgSet;
  }

  /* The source's load agrees with the incremental bookkeeping whenever
     the map it loads into indexes no group that is not a creating group of
     the loaded table, a fresh map in particular. */
  lemma AsWrittenAgrees(m0: PGMap, m: PGMap)
    requires Valid(m)
    requires m0.pg.creatingPgs <= CreatingSet(m.pgStat)
    ensures DecodeAsWritten(m0, Encode(m)).pg == m.pg
    ensures DecodeAsWritten(m0, Encode(m)).osd == m.osd
  {
  }

  /* Round trip through the source's load: into a fresh map it restores a
     consistent map whose pg_set is exactly its group ids. */
  lemma AsWrittenRoundTrip(m: PGMap)
    requires Valid(m)
    requires m.pgSet == m.pgStat.Keys
    ensures DecodeAsWritten(Empty(), Encode(m)) == m
  {
    assert Valid(DecodeAsWritten(Empty(), Encode(m)));
  }

  /* A group that is creating at version 1 and absent from the loaded table
     stays in creating_pgs when the source's decode reloads an empty map
     into it, so the loaded map is inconsistent; the corrected decode is
     consistent on the same input. */
  lemma StaleCreatingSurvivesDecodeAsWritten()
    ensures var g := PgId(0, 0);
            var m := ApplyIncremental(Empty(), NewIncremental().(version := 1, pgStatUpdates := map[g := PgStat(StateCreating, 0, 0, 0)]));
            && g in DecodeAsWritten(m, Encode(Empty())).pg.creatingPgs
            && !Valid(DecodeAsWritten(m, Encode(Empty())))
            && Valid(Decode(m, Encode(Empty())))
  {
    var g := PgId(0, 0);
    var inc := NewIncremental().(version := 1, pgStatUpdates := map[g := PgStat(StateCreating, 0, 0, 0)]);
    var m := ApplyIncremental(Empty(), inc);
    ApplyIncrementalPreservesValid(Empty(), inc);
    MapOverrideOfEmpty(inc.pgStatUpdates);
    CreatingGroupIsIndexed(m, g);
    EmptySnapshotHasNoCreating();
  }

  lemma CreatingGroupIsIndexed(m: PGMap, g: PgId)
    requires Valid(m)
    requires m.pgStat == map[g := PgStat(StateCreating, 0, 0, 0)]
    ensures g in m.pg.creatingPgs
  {
    assert g in CreatingSet(m.pgStat);
  }

  lemma EmptySnapshotHasNoCreating()
    ensures CreatingSet(Encode(Empty()).pgStat) == {}
  {
  }
}
