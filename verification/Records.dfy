/**
 The per-entity records the placement-group map stores.

 Only the fields the statistics bookkeeping reads are modelled: the real
 `pg_stat_t` and `osd_stat_t` carry more, and their layouts live in
 `osd/osd_types.h`, which is not part of this model.
 */
module Records {

  /* A placement-group id: a pool and a placement seed, pgid = (r, hash(o) & m). */
  datatype PgId = PgId(pool: int, seed: int)

  /* Storage devices (OSDs) are named by plain integers. */
  type OsdId = int

  /* The statistics one placement group reports: its state bits and usage. */
  datatype PgStat = PgStat(state: int, numBytes: int, numKb: int, numObjects: int)

  /* The statistics one storage device reports: capacity, use and object count. */
  datatype OsdStat = OsdStat(kb: int, kbUsed: int, kbAvail: int, numObjects: int)

  /* The "creating" bit of a placement group's state word (PG_STATE_CREATING),
     a single-bit mask. */
  const StateCreating: int := 1

  /* `state & StateCreating` is non-zero. For a positive divisor Dafny's `/`
     and `%` round toward minus infinity, so dividing by a one-bit mask and
     taking the remainder mod 2 reads that bit of the two's-complement word,
     negative states included. */
  predicate IsCreating(s: PgStat)
  {
    (s.state / StateCreating) % 2 == 1
  }

  /* Projections summed by the aggregates, named so that every mention of a
     total denotes the same function value. */
  function PgBytes(s: PgStat): int { s.numBytes }
  function PgKb(s: PgStat): int { s.numKb }
  function PgObjects(s: PgStat): int { s.numObjects }

  function OsdKb(s: OsdStat): int { s.kb }
  function OsdKbUsed(s: OsdStat): int { s.kbUsed }
  function OsdKbAvail(s: OsdStat): int { s.kbAvail }
  function OsdObjects(s: OsdStat): int { s.numObjects }
}
