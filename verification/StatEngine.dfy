/**
 The soft-state aggregates of the placement-group map and the add/subtract
 bookkeeping that keeps them in step with the tables.

 `PgSumsOf` and `OsdSumsOf` define, from scratch, what the aggregates of a
 table ought to be. `StatPgAdd`, `StatPgSub`, `StatOsdAdd` and `StatOsdSub`
 are the incremental operations; the lemmas prove that each one moves the
 from-scratch value of a table to the from-scratch value of the table with
 one record inserted or erased.
 */
module StatEngine {
  import opened Records
  import opened Sums

  /* Placement-group aggregates: num_pg, num_pg_by_state, the three pg
     totals and the creating_pgs index. */
  datatype PgSums = PgSums(
    numPg: int,
    numPgByState: map<int, int>,
    totalPgNumBytes: int,
    totalPgNumKb: int,
    totalPgNumObjects: int,
    creatingPgs: set<PgId>)

  /* Device aggregates: num_osd and the four device totals. */
  datatype OsdSums = OsdSums(
    numOsd: int,
    totalOsdKb: int,
    totalOsdKbUsed: int,
    totalOsdKbAvail: int,
    totalOsdNumObjects: int)

  /*
   * Reference definitions
   */

  /* The placement groups whose record is in state `st`. */
  ghost function PgsInState(t: map<PgId, PgStat>, st: int): set<PgId>
  {
    set id | id in t && t[id].state == st
  }

  /* Every state some placement group of the table is in. */
  ghost function StatesOf(t: map<PgId, PgStat>): set<int>
  {
    set id | id in t :: t[id].state
  }

  /* One bucket per occupied state, holding how many groups are in it. */
  ghost function Histogram(t: map<PgId, PgStat>): map<int, int>
  {
    map st | st in StatesOf(t) :: |PgsInState(t, st)|
  }

  /* The placement groups whose state has the creating bit. */
  ghost function CreatingSet(t: map<PgId, PgStat>): set<PgId>
  {
    set id | id in t && IsCreating(t[id])
  }

  /* What the placement-group aggregates of table `t` are. */
  ghost function PgSumsOf(t: map<PgId, PgStat>): PgSums
  {
    PgSums(|t|, Histogram(t), Sum(t, PgBytes), Sum(t, PgKb), Sum(t, PgObjects), CreatingSet(t))
  }

  /* What the device aggregates of table `t` are. */
  ghost function OsdSumsOf(t: map<OsdId, OsdStat>): OsdSums
  {
    OsdSums(|t|, Sum(t, OsdKb), Sum(t, OsdKbUsed), Sum(t, OsdKbAvail), Sum(t, OsdObjects))
  }

  /*
   * The incremental operations
   */

  /* The bucket count of `st`, where an absent bucket reads as zero. */
  function Bucket(h: map<int, int>, st: int): int
  {
    if st in h then h[st] else 0
  }

  /* stat_pg_add: count the group in, bump its state's bucket (creating it
     at 1 if absent), add its usage, and index it if it is creating. */
  function StatPgAdd(a: PgSums, id: PgId, s: PgStat): PgSums
  {
    PgSums(
      a.numPg + 1,
      a.numPgByState[s.state := Bucket(a.numPgByState, s.state) + 1],
      a.totalPgNumBytes + s.numBytes,
      a.totalPgNumKb + s.numKb,
      a.totalPgNumObjects + s.numObjects,
      if IsCreating(s) then a.creatingPgs + {id} else a.creatingPgs)
  }

  /* stat_pg_sub: the mirror image; a bucket that drops to zero is erased. */
  function StatPgSub(a: PgSums, id: PgId, s: PgStat): PgSums
  {
    var n := Bucket(a.numPgByState, s.state) - 1;
    PgSums(
      a.numPg - 1,
      if n == 0 then a.numPgByState - {s.state} else a.numPgByState[s.state := n],
      a.totalPgNumBytes - s.numBytes,
      a.totalPgNumKb - s.numKb,
      a.totalPgNumObjects - s.numObjects,
      if IsCreating(s) then a.creatingPgs - {id} else a.creatingPgs)
  }

  /* stat_osd_add */
  function StatOsdAdd(a: OsdSums, s: OsdStat): OsdSums
  {
    OsdSums(
      a.numOsd + 1,
      a.totalOsdKb + s.kb,
      a.totalOsdKbUsed + s.kbUsed,
      a.totalOsdKbAvail + s.kbAvail,
      a.totalOsdNumObjects + s.numObjects)
  }

  /* stat_osd_sub */
  function StatOsdSub(a: OsdSums, s: OsdStat): OsdSums
  {
    OsdSums(
      a.numOsd - 1,
      a.totalOsdKb - s.kb,
      a.totalOsdKbUsed - s.kbUsed,
      a.totalOsdKbAvail - s.kbAvail,
      a.totalOsdNumObjects - s.numObjects)
  }

  /*
   * Properties of the reference definitions
   */

  /* A bucket of the histogram counts exactly the groups in that state, and
     no bucket is kept at zero. */
  lemma HistogramCounts(t: map<PgId, PgStat>, st: int)
    ensures st in Histogram(t) <==> PgsInState(t, st) != {}
    ensures Bucket(Histogram(t), st) == |PgsInState(t, st)|
    ensures st in Histogram(t) ==> Histogram(t)[st] > 0
  {
    if st in StatesOf(t) {
      var id :| id in t && t[id].state == st;
      assert id in PgsInState(t, st);
      assert Histogram(t)[st] == |PgsInState(t, st)|;
    } else {
      assert PgsInState(t, st) == {};
    }
  }

  lemma PgsInStateInsert(t: map<PgId, PgStat>, id: PgId, s: PgStat, st: int)
    requires id !in t
    ensures |PgsInState(t[id := s], st)| == |PgsInState(t, st)| + (if s.state == st then 1 else 0)
  {
    if s.state == st {
      assert PgsInState(t[id := s], st) == PgsInState(t, st) + {id};
    } else {
      assert PgsInState(t[id := s], st) == PgsInState(t, st);
    }
  }

  lemma PgsInStateRemove(t: map<PgId, PgStat>, id: PgId, st: int)
    requires id in t
    ensures |PgsInState(t - {id}, st)| == |PgsInState(t, st)| - (if t[id].state == st then 1 else 0)
  {
    if t[id].state == st {
      assert PgsInState(t - {id}, st) == PgsInState(t, st) - {id};
    } else {
      assert PgsInState(t - {id}, st) == PgsInState(t, st);
    }
  }

  /* Inserting a group bumps the bucket of its state, creating it at 1. */
  lemma HistogramInsert(t: map<PgId, PgStat>, id: PgId, s: PgStat)
    requires id !in t
    ensures Histogram(t)[s.state := Bucket(Histogram(t), s.state) + 1] == Histogram(t[id := s])
  {
    var t' := t[id := s];
    var h := Histogram(t)[s.state := Bucket(Histogram(t), s.state) + 1];
    forall st
      ensures st in h <==> st in Histogram(t')
      ensures Bucket(h, st) == Bucket(Histogram(t'), st)
    {
      HistogramCounts(t, st);
      HistogramCounts(t', st);
      PgsInStateInsert(t, id, s, st);
    }
    assert h == Histogram(t') by {
      forall st | st in h ensures h[st] == Histogram(t')[st] {
        assert Bucket(h, st) == Bucket(Histogram(t'), st);
      }
    }
  }

  /* Erasing a group takes one from the bucket of its state and drops the
     bucket when it reaches zero. */
  lemma HistogramRemove(t: map<PgId, PgStat>, id: PgId)
    requires id in t
    ensures var st0, n := t[id].state, Bucket(Histogram(t), t[id].state) - 1;
            (if n == 0 then Histogram(t) - {st0} else Histogram(t)[st0 := n]) == Histogram(t - {id})
  {
    var t' := t - {id};
    var st0 := t[id].state;
    var n := Bucket(Histogram(t), st0) - 1;
    var h := if n == 0 then Histogram(t) - {st0} else Histogram(t)[st0 := n];
    forall st
      ensures st in h <==> st in Histogram(t')
      ensures Bucket(h, st) == Bucket(Histogram(t'), st)
    {
      HistogramCounts(t, st);
      HistogramCounts(t', st);
      PgsInStateRemove(t, id, st);
    }
    assert h == Histogram(t') by {
      forall st | st in h ensures h[st] == Histogram(t')[st] {
        assert Bucket(h, st) == Bucket(Histogram(t'), st);
      }
    }
  }

  /* The size of one histogram bucket, as summed over the histogram. */
  function BucketSize(n: int): int { n }

  /* The buckets partition the groups: their sizes add up to the number of
     groups in the table. */
  lemma {:induction false} HistogramTotal(t: map<PgId, PgStat>)
    ensures Sum(Histogram(t), BucketSize) == |t|
    decreases |t|
  {
    if |t| == 0 {
      assert StatesOf(t) == {};
      assert |Histogram(t)| == 0;
    } else {
      var id := Pick(t);
      var t0 := t - {id};
      MapRemoveCard(t, id);
      assert t0[id := t[id]] == t;
      HistogramTotal(t0);
      HistogramTotalStep(t0, id, t[id]);
    }
  }

  /* One more group adds one to the sum of the bucket sizes. */
  lemma HistogramTotalStep(t: map<PgId, PgStat>, id: PgId, s: PgStat)
    requires id !in t
    ensures Sum(Histogram(t[id := s]), BucketSize) == Sum(Histogram(t), BucketSize) + 1
  {
    var h := Histogram(t);
    HistogramInsert(t, id, s);
    SumBump(h, s.state);
  }

  /* Bumping one bucket of any histogram adds one to the sum of its sizes. */
  lemma SumBump(h: map<int, int>, st: int)
    ensures Sum(h[st := Bucket(h, st) + 1], BucketSize) == Sum(h, BucketSize) + 1
  {
    SumUpdate(h, st, Bucket(h, st) + 1, BucketSize);
  }

  /*
   * The incremental operations track the reference definitions
   */

  /* Adding a record for a group not yet in the table turns the table's
     aggregates into those of the table with that record inserted. */
  lemma StatPgAddTracksTable(t: map<PgId, PgStat>, id: PgId, s: PgStat)
    requires id !in t
    ensures StatPgAdd(PgSumsOf(t), id, s) == PgSumsOf(t[id := s])
  {
    var t' := t[id := s];
    var r := StatPgAdd(PgSumsOf(t), id, s);
    HistogramInsert(t, id, s);
    assert r.numPgByState == Histogram(t');
    SumInsert(t, id, s, PgBytes);
    SumInsert(t, id, s, PgKb);
    SumInsert(t, id, s, PgObjects);
    CreatingSetInsert(t, id, s);
    assert r.creatingPgs == CreatingSet(t');
  }

  lemma CreatingSetInsert(t: map<PgId, PgStat>, id: PgId, s: PgStat)
    requires id !in t
    ensures CreatingSet(t[id := s]) == if IsCreating(s) then CreatingSet(t) + {id} else CreatingSet(t)
  {
  }

  /* Subtracting the stored record of a group in the table turns the table's
     aggregates into those of the table with that group erased. */
  lemma StatPgSubTracksTable(t: map<PgId, PgStat>, id: PgId)
    requires id in t
    ensures StatPgSub(PgSumsOf(t), id, t[id]) == PgSumsOf(t - {id})
  {
    var t' := t - {id};
    assert t'.Keys == t.Keys - {id};
    HistogramRemove(t, id);
    SumRemove(t, id, PgBytes);
    SumRemove(t, id, PgKb);
    SumRemove(t, id, PgObjects);
    assert CreatingSet(t') == CreatingSet(t) - {id};
  }

  lemma StatOsdAddTracksTable(t: map<OsdId, OsdStat>, id: OsdId, s: OsdStat)
    requires id !in t
    ensures StatOsdAdd(OsdSumsOf(t), s) == OsdSumsOf(t[id := s])
  {
    SumInsert(t, id, s, OsdKb);
    SumInsert(t, id, s, OsdKbUsed);
    SumInsert(t, id, s, OsdKbAvail);
    SumInsert(t, id, s, OsdObjects);
  }

  lemma StatOsdSubTracksTable(t: map<OsdId, OsdStat>, id: OsdId)
    requires id in t
    ensures StatOsdSub(OsdSumsOf(t), t[id]) == OsdSumsOf(t - {id})
  {
    assert (t - {id}).Keys == t.Keys - {id};
    SumRemove(t, id, OsdKb);
    SumRemove(t, id, OsdKbUsed);
    SumRemove(t, id, OsdKbAvail);
    SumRemove(t, id, OsdObjects);
  }

  /* Subtracting a record right after adding it restores the aggregates,
     provided the bucket it lands in was not a stale zero and, for a creating
     record, the group was not already indexed. */
  lemma StatPgSubUndoesAdd(a: PgSums, id: PgId, s: PgStat)
    requires s.state in a.numPgByState ==> a.numPgByState[s.state] != 0
    requires IsCreating(s) ==> id !in a.creatingPgs
    ensures StatPgSub(StatPgAdd(a, id, s), id, s) == a
  {
    var b := StatPgSub(StatPgAdd(a, id, s), id, s);
    assert b.numPgByState == a.numPgByState;
  }

  lemma StatOsdSubUndoesAdd(a: OsdSums, s: OsdStat)
    ensures StatOsdSub(StatOsdAdd(a, s), s) == a
  {
  }
}
