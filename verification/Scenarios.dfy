/**
 A worked two-delta history, proved from the general contracts: a group is
 created on a new device, then becomes active while the device is removed.
 */
module Scenarios {
  import opened Records
  import opened Sums
  import opened StatEngine
  import opened PgMap

  /* The aggregates of a one-group table. */
  lemma SingletonPgSums(g: PgId, s: PgStat)
    ensures PgSumsOf(map[g := s]) ==
            PgSums(1, map[s.state := 1], s.numBytes, s.numKb, s.numObjects,
                   if IsCreating(s) then {g} else {})
  {
    StatPgAddTracksTable(map[], g, s);
    assert ZeroPgSums().numPgByState == map[];
  }

  /* The aggregates of a one-device table. */
  lemma SingletonOsdSums(d: OsdId, s: OsdStat)
    ensures OsdSumsOf(map[d := s]) == OsdSums(1, s.kb, s.kbUsed, s.kbAvail, s.numObjects)
  {
    StatOsdAddTracksTable(map[], d, s);
  }

  /* A state word without the creating bit. */
  const StateActive: int := 2

  function CreateDelta(g: PgId, d: OsdId): Incremental
  {
    NewIncremental().(version := 1,
                      pgStatUpdates := map[g := PgStat(StateCreating, 100, 0, 0)],
                      osdStatUpdates := map[d := OsdStat(1000, 200, 800, 0)])
  }

  function ActivateDelta(g: PgId, d: OsdId): Incremental
  {
    NewIncremental().(version := 2,
                      pgStatUpdates := map[g := PgStat(StateActive, 150, 0, 0)],
                      osdStatRm := {d})
  }

  lemma AfterCreate(g: PgId, d: OsdId)
    ensures var m1 := ApplyIncremental(Empty(), CreateDelta(g, d));
            && Valid(m1)
            && m1.version == 1
            && m1.pgStat == map[g := PgStat(StateCreating, 100, 0, 0)]
            && m1.osdStat == map[d := OsdStat(1000, 200, 800, 0)]
  {
    var inc1 := CreateDelta(g, d);
    ApplyIncrementalPreservesValid(Empty(), inc1);
    MapOverrideOfEmpty(inc1.pgStatUpdates);
    MapOverrideOfEmpty(inc1.osdStatUpdates);
  }

  /* The table arithmetic of the second delta. */
  lemma ActivateTables(p: map<PgId, PgStat>, o: map<OsdId, OsdStat>, g: PgId, d: OsdId)
    requires p == map[g := PgStat(StateCreating, 100, 0, 0)]
    requires o == map[d := OsdStat(1000, 200, 800, 0)]
    ensures p + map[g := PgStat(StateActive, 150, 0, 0)] == map[g := PgStat(StateActive, 150, 0, 0)]
    ensures (o + map[]) - {d} == map[]
  {
    assert (o + map[]) - {d} == map[];
  }

  lemma AfterActivate(m1: PGMap, g: PgId, d: OsdId)
    requires Valid(m1) && m1.version == 1
    requires m1.pgStat == map[g := PgStat(StateCreating, 100, 0, 0)]
    requires m1.osdStat == map[d := OsdStat(1000, 200, 800, 0)]
    ensures var m2 := ApplyIncremental(m1, ActivateDelta(g, d));
            && Valid(m2)
            && m2.version == 2
            && m2.pgStat == map[g := PgStat(StateActive, 150, 0, 0)]
            && m2.osdStat == map[]
  {
    ApplyIncrementalPreservesValid(m1, ActivateDelta(g, d));
    ActivateTables(m1.pgStat, m1.osdStat, g, d);
  }

  /* The aggregates right after the first delta. */
  lemma CreatedAggregates(m1: PGMap, g: PgId, d: OsdId)
    requires Valid(m1)
    requires m1.pgStat == map[g := PgStat(StateCreating, 100, 0, 0)]
    requires m1.osdStat == map[d := OsdStat(1000, 200, 800, 0)]
    ensures m1.pg == PgSums(1, map[StateCreating := 1], 100, 0, 0, {g})
    ensures m1.osd == OsdSums(1, 1000, 200, 800, 0)
  {
    SingletonPgSums(g, PgStat(StateCreating, 100, 0, 0));
    SingletonOsdSums(d, OsdStat(1000, 200, 800, 0));
  }

  /* The aggregates right after the second delta. */
  lemma ActivatedAggregates(m2: PGMap, g: PgId)
    requires Valid(m2)
    requires m2.pgStat == map[g := PgStat(StateActive, 150, 0, 0)]
    requires m2.osdStat == map[]
    ensures m2.pg == PgSums(1, map[StateActive := 1], 150, 0, 0, {})
    ensures m2.osd.numOsd == 0 && m2.osd.totalOsdKbUsed == 0
  {
    SingletonPgSums(g, PgStat(StateActive, 150, 0, 0));
    assert m2.osd == OsdSumsOf(map[]);
  }

  /* Version 1 creates group g (100 bytes) and device d (200 kb used);
     version 2 makes g active at 150 bytes and removes d. The creating
     bucket appears and then disappears, g enters and then leaves
     creating_pgs, and the device totals fall back to zero. */
  lemma CreateThenActivate(g: PgId, d: OsdId)
    ensures var m1 := ApplyIncremental(Empty(), CreateDelta(g, d));
            && m1.version == 1
            && m1.pg.numPg == 1
            && m1.pg.numPgByState == map[StateCreating := 1]
            && m1.pg.creatingPgs == {g}
            && m1.osd.totalOsdKbUsed == 200
            && var m2 := ApplyIncremental(m1, ActivateDelta(g, d));
               && m2.version == 2
               && m2.pg.numPg == 1
               && m2.pg.numPgByState == map[StateActive := 1]
               && m2.pg.creatingPgs == {}
               && m2.pg.totalPgNumBytes == 150
               && m2.osd.numOsd == 0
               && m2.osd.totalOsdKbUsed == 0
  {
    var m1 := ApplyIncremental(Empty(), CreateDelta(g, d));
    AfterCreate(g, d);
    CreatedAggregates(m1, g, d);
    var m2 := ApplyIncremental(m1, ActivateDelta(g, d));
    AfterActivate(m1, g, d);
    ActivatedAggregates(m2, g);
  }
}
