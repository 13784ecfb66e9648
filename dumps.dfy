/** The four whole-series dumps (get_scene_numbering_for_show,
    get_xem_numbering_for_show and their absolute variants): a loop over the
    series' partition that fills a dictionary, a later record overwriting an
    earlier one with the same key. `PairDump` and `AbsoluteDump` are the
    dictionaries as folds; the Collect methods are the loops, proved equal to
    them. The XEM variants refresh first; see the store. */
module Dumps {
  import opened Seqs
  import opened Records
  import opened Lookup

  /** Python's `a or b` on two ints. */
  function PyOr(a: int, b: int): int
  {
    if a != 0 then a else b
  }

  function PairDump(recs: seq<NumberingRecord>, indexerId: int, indexer: int): (m: map<(int, int), (int, int)>)
    ensures forall key :: key in m ==> m[key] != (0, 0)
    decreases |recs|
  {
    if recs == [] then map[]
    else
      var m := PairDump(recs[..|recs| - 1], indexerId, indexer);
      var x := recs[|recs| - 1];
      if x.indexerId != indexerId || x.indexer != indexer || PyOr(x.sceneSeason, x.sceneEpisode) == 0 then m
      else m[(x.season, x.episode) := (x.sceneSeason, x.sceneEpisode)]
  }

  function AbsoluteDump(recs: seq<NumberingRecord>, indexerId: int, indexer: int): (m: map<int, int>)
    ensures forall key :: key in m ==> m[key] != 0
    decreases |recs|
  {
    if recs == [] then map[]
    else
      var m := AbsoluteDump(recs[..|recs| - 1], indexerId, indexer);
      var x := recs[|recs| - 1];
      if x.indexerId != indexerId || x.indexer != indexer || x.sceneAbsolute == 0 then m
      else m[x.absolute := x.sceneAbsolute]
  }

  /** A record the pair dump takes: of the series and indexer, and not both
      scene fields zero. */
  predicate PairDumped(x: NumberingRecord, indexerId: int, indexer: int, key: (int, int))
  {
    OfShow(x, indexerId, indexer) && (x.sceneSeason != 0 || x.sceneEpisode != 0)
    && (x.season, x.episode) == key
  }

  predicate AbsoluteDumped(x: NumberingRecord, indexerId: int, indexer: int, key: int)
  {
    OfShow(x, indexerId, indexer) && x.sceneAbsolute != 0 && x.absolute == key
  }

  /** The pair dump has a key exactly when some record of the series and
      indexer has that native pair and a scene pair that is not (0, 0); its
      value is the scene pair of the LAST such record. */
  lemma {:induction false} PairDumpContents(recs: seq<NumberingRecord>, indexerId: int, indexer: int, key: (int, int))
    ensures key in PairDump(recs, indexerId, indexer)
            <==> exists j :: 0 <= j < |recs| && PairDumped(recs[j], indexerId, indexer, key)
    ensures key in PairDump(recs, indexerId, indexer) ==>
              exists j :: 0 <= j < |recs| && PairDumped(recs[j], indexerId, indexer, key)
                          && PairDump(recs, indexerId, indexer)[key] == (recs[j].sceneSeason, recs[j].sceneEpisode)
                          && forall i :: j < i < |recs| ==> !PairDumped(recs[i], indexerId, indexer, key)
    decreases |recs|
  {
    if recs != [] {
      var n := |recs| - 1;
      var init := recs[..n];
      var x := recs[n];
      PairDumpContents(init, indexerId, indexer, key);
      assert forall j :: 0 <= j < n ==> init[j] == recs[j];
      if PairDumped(x, indexerId, indexer, key) {
        assert PyOr(x.sceneSeason, x.sceneEpisode) != 0;
      } else {
        assert x.indexerId != indexerId || x.indexer != indexer || PyOr(x.sceneSeason, x.sceneEpisode) == 0
               || (x.season, x.episode) != key;
        if key in PairDump(recs, indexerId, indexer) {
          var j :| 0 <= j < n && PairDumped(init[j], indexerId, indexer, key)
                   && PairDump(init, indexerId, indexer)[key] == (init[j].sceneSeason, init[j].sceneEpisode)
                   && forall i :: j < i < n ==> !PairDumped(init[i], indexerId, indexer, key);
          assert PairDumped(recs[j], indexerId, indexer, key);
        }
      }
    }
  }

  /** The absolute dump has a key exactly when some record of the series and
      indexer has that native absolute number and a non-zero scene one; its
      value is that of the LAST such record. */
  lemma {:induction false} AbsoluteDumpContents(recs: seq<NumberingRecord>, indexerId: int, indexer: int, key: int)
    ensures key in AbsoluteDump(recs, indexerId, indexer)
            <==> exists j :: 0 <= j < |recs| && AbsoluteDumped(recs[j], indexerId, indexer, key)
    ensures key in AbsoluteDump(recs, indexerId, indexer) ==>
              exists j :: 0 <= j < |recs| && AbsoluteDumped(recs[j], indexerId, indexer, key)
                          && AbsoluteDump(recs, indexerId, indexer)[key] == recs[j].sceneAbsolute
                          && forall i :: j < i < |recs| ==> !AbsoluteDumped(recs[i], indexerId, indexer, key)
    decreases |recs|
  {
    if recs != [] {
      var n := |recs| - 1;
      var init := recs[..n];
      AbsoluteDumpContents(init, indexerId, indexer, key);
      assert forall j :: 0 <= j < n ==> init[j] == recs[j];
      var x := recs[n];
      if !AbsoluteDumped(x, indexerId, indexer, key) {
        assert x.indexerId != indexerId || x.indexer != indexer || x.sceneAbsolute == 0 || x.absolute != key;
        if key in AbsoluteDump(recs, indexerId, indexer) {
          var j :| 0 <= j < n && AbsoluteDumped(init[j], indexerId, indexer, key)
                   && AbsoluteDump(init, indexerId, indexer)[key] == init[j].sceneAbsolute
                   && forall i :: j < i < n ==> !AbsoluteDumped(init[i], indexerId, indexer, key);
          assert AbsoluteDumped(recs[j], indexerId, indexer, key);
        }
      }
    }
  }

  /** When a native episode of the series has a single record and it maps to
      a scene pair with both parts non-zero, the dump and the forward lookup
      agree on it. */
  lemma PairDumpAgreesWithLookup(recs: seq<NumberingRecord>, indexerId: int, indexer: int, k: int)
    requires 0 <= k < |recs| && MapsPair(recs[k], indexerId, indexer, recs[k].season, recs[k].episode)
    requires forall j :: 0 <= j < |recs| && j != k ==> !PairDumped(recs[j], indexerId, indexer, (recs[k].season, recs[k].episode))
    ensures var key := (recs[k].season, recs[k].episode);
            key in PairDump(recs, indexerId, indexer)
            && Some(PairDump(recs, indexerId, indexer)[key]) == FindScenePair(recs, indexerId, indexer, key.0, key.1)
  {
    var key := (recs[k].season, recs[k].episode);
    assert PairDumped(recs[k], indexerId, indexer, key);
    PairDumpContents(recs, indexerId, indexer, key);
    forall j | 0 <= j < |recs| && j != k
      ensures !MapsPair(recs[j], indexerId, indexer, key.0, key.1)
    {
      assert !PairDumped(recs[j], indexerId, indexer, key);
    }
    var f := FindScenePair(recs, indexerId, indexer, key.0, key.1);
    assert f.Some?;
  }

  /** A record whose scene pair is only half set, here (0, 5), is listed by
      the dump but never returned by the forward lookup, which wants both
      parts non-zero. */
  lemma HalfMappedPairOnlyInDump()
    ensures var recs := [NumberingRecord(100, 1, 1, 5, 5, 0, 5, 0)];
            PairDump(recs, 100, 1) == map[(1, 5) := (0, 5)]
            && FindScenePair(recs, 100, 1, 1, 5).None?
  {
    var recs := [NumberingRecord(100, 1, 1, 5, 5, 0, 5, 0)];
    assert recs[..0] == [];
  }

  /** The loop of the two pair dumps: `if indexer_id is None: return {}`, then
      for each record of the partition skip it if its indexer differs or
      `(scene_season or scene_episode) == 0`, else store it. */
  method CollectPairDump(recs: seq<NumberingRecord>, indexerId: Option<int>, indexer: int)
    returns (m: map<(int, int), (int, int)>)
    ensures m == if indexerId.None? then map[] else PairDump(recs, indexerId.value, indexer)
  {
    m := map[];
    if indexerId.None? {
      return;
    }
    var id := indexerId.value;
    for i := 0 to |recs|
      invariant m == PairDump(recs[..i], id, indexer)
    {
      var x := recs[i];
      assert recs[..i + 1][..i] == recs[..i];
      if x.indexerId != id {
        continue;  // outside the partition get_many returns
      }
      if x.indexer != indexer || PyOr(x.sceneSeason, x.sceneEpisode) == 0 {
        continue;
      }
      m := m[(x.season, x.episode) := (x.sceneSeason, x.sceneEpisode)];
    }
    assert recs[..|recs|] == recs;
  }

  /** The loop of the two absolute dumps. */
  method CollectAbsoluteDump(recs: seq<NumberingRecord>, indexerId: Option<int>, indexer: int)
    returns (m: map<int, int>)
    ensures m == if indexerId.None? then map[] else AbsoluteDump(recs, indexerId.value, indexer)
  {
    m := map[];
    if indexerId.None? {
      return;
    }
    var id := indexerId.value;
    for i := 0 to |recs|
      invariant m == AbsoluteDump(recs[..i], id, indexer)
    {
      var x := recs[i];
      assert recs[..i + 1][..i] == recs[..i];
      if x.indexerId != id {
        continue;  // outside the partition get_many returns
      }
      if x.indexer != indexer || x.sceneAbsolute == 0 {
        continue;
      }
      m := m[x.absolute := x.sceneAbsolute];
    }
    assert recs[..|recs|] == recs;
  }
}
