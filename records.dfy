/** The records of the three tables this core reads and writes.

    Rows of 'scene_numbering' (local overrides) and rows of 'tv_episodes'
    (episodes whose scene fields are filled from XEM) carry the same eight
    numbering fields, so one datatype serves both tables. A scene field of 0
    means "unmapped". Each table is a sequence in store order; the partition
    that `get_many(table, indexer_id)` returns is the subsequence whose
    `indexerId` equals the key, in the same order. */
module Records {

  datatype NumberingRecord = NumberingRecord(
    indexerId: int,      // the series id, also the partition key
    indexer: int,        // which indexer the native numbering comes from
    season: int,
    episode: int,
    absolute: int,
    sceneSeason: int,
    sceneEpisode: int,
    sceneAbsolute: int)

  /** A row of the 'xem_refresh' ledger. */
  datatype RefreshStamp = RefreshStamp(indexerId: int, indexer: int, lastRefreshed: int)

  /** The record belongs to the series and indexer asked about. */
  predicate OfShow(x: NumberingRecord, indexerId: int, indexer: int)
  {
    x.indexerId == indexerId && x.indexer == indexer
  }

  /** The record with its three scene fields reset to "unmapped". */
  function Unmapped(x: NumberingRecord): NumberingRecord
  {
    x.(sceneSeason := 0, sceneEpisode := 0, sceneAbsolute := 0)
  }

  /** Two tables hold the same rows up to their scene fields. */
  ghost predicate SameNatives(a: seq<NumberingRecord>, b: seq<NumberingRecord>)
  {
    |a| == |b| && forall i :: 0 <= i < |a| ==> Unmapped(a[i]) == Unmapped(b[i])
  }
}
