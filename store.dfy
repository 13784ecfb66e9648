/** The record store the module works on, as one object: the three tables
    and the count of episode-cache flushes requested from the show. Its
    methods are the public operations of scene_numbering.py. Each is proved
    against the functions of the Lookup, Resolver, Dumps, Xem and Overrides
    modules: the new tables and the answer are given by those functions of
    the old tables and the inputs. */
module Store {
  import opened Seqs
  import opened Records
  import opened Lookup
  import opened Resolver
  import opened Dumps
  import opened Xem
  import opened Overrides

  /** An exception set_scene_numbering lets escape. */
  datatype Fault =
    | ShowNotFound      // findCertainShow returned None: `show.flushEpisodes()` fails

  class SceneNumberingStore {
    var overrides: seq<NumberingRecord>   // 'scene_numbering'
    var episodes: seq<NumberingRecord>    // 'tv_episodes'
    var ledger: seq<RefreshStamp>         // 'xem_refresh'
    var flushes: nat                      // calls of the show's flushEpisodes()

    constructor (overrides: seq<NumberingRecord>, episodes: seq<NumberingRecord>, ledger: seq<RefreshStamp>)
      ensures this.overrides == overrides && this.episodes == episodes && this.ledger == ledger
      ensures flushes == 0
    {
      this.overrides := overrides;
      this.episodes := episodes;
      this.ledger := ledger;
      flushes := 0;
    }

    // -------------------------------------------------------------------
    // xem_refresh
    // -------------------------------------------------------------------

    method XemRefresh(indexerId: int, indexer: int, force: bool, now: int, xem: XemReplies)
      modifies this
      ensures ledger == LedgerAfterRefresh(old(ledger), indexerId, indexer, force, now)
      ensures episodes == EpisodesAfterRefresh(old(episodes), old(ledger), indexerId, force, now, xem)
      ensures overrides == old(overrides) && flushes == old(flushes)
    {
      if indexerId < 1 {
        return;
      }
      var refresh: bool;
      match LastRefreshed(ledger, indexerId) {
        case None => refresh := true;
        case Some(t) => refresh := now > t + MaxRefreshAgeSecs;
      }
      if !(refresh || force) {
        return;
      }
      // mark refreshed before either request is made
      match StampPosition(ledger, indexerId) {
        case Some(k) => ledger := ledger[k := ledger[k].(lastRefreshed := now)];
        case None => ledger := ledger + [RefreshStamp(indexerId, indexer, now)];
      }
      if ProbeMisses(xem, indexerId) {
        ClearEpisodes(indexerId);
        return;
      }
      if !FetchSucceeded(xem) {
        return;
      }
      ApplyXemEntries(indexerId, xem.fetch.value.data);
    }

    /** The probe-failure loop: zero the three scene fields of every episode
        record of the series, of whichever indexer. */
    method ClearEpisodes(indexerId: int)
      modifies this
      ensures episodes == ClearPartition(old(episodes), indexerId)
      ensures overrides == old(overrides) && ledger == old(ledger) && flushes == old(flushes)
    {
      var i := 0;
      while i < |episodes|
        invariant 0 <= i <= |episodes| == |old(episodes)|
        invariant forall j :: 0 <= j < i ==>
                    episodes[j] == if old(episodes)[j].indexerId == indexerId then Unmapped(old(episodes)[j]) else old(episodes)[j]
        invariant forall j :: i <= j < |episodes| ==> episodes[j] == old(episodes)[j]
        invariant overrides == old(overrides) && ledger == old(ledger) && flushes == old(flushes)
      {
        if episodes[i].indexerId == indexerId {
          episodes := episodes[i := Unmapped(episodes[i])];
        }
        i := i + 1;
      }
    }

    /** The loop over the fetched entries: find the episode the origin side
        names, copy 'scene' and then 'scene_2' into it, write it back. A
        missing key in either sub-object ends the loop with nothing more
        written. */
    method ApplyXemEntries(indexerId: int, data: seq<Entry>)
      modifies this
      ensures episodes == ApplyEntries(old(episodes), indexerId, data)
      ensures overrides == old(overrides) && ledger == old(ledger) && flushes == old(flushes)
    {
      var i := 0;
      while i < |data|
        invariant 0 <= i <= |data|
        invariant ApplyEntries(old(episodes), indexerId, data) == ApplyEntries(episodes, indexerId, data[i..])
        invariant overrides == old(overrides) && ledger == old(ledger) && flushes == old(flushes)
      {
        var entry := data[i];
        assert data[i..][0] == entry && data[i..][1..] == data[i + 1..];
        match OriginPosition(episodes, indexerId, entry) {
          case None =>
          case Some(k) =>
            var rec := episodes[k];
            if "scene" in entry {
              var scene := entry["scene"];
              if !WellFormed(scene) {
                return;
              }
              rec := rec.(sceneSeason := scene["season"], sceneEpisode := scene["episode"],
                          sceneAbsolute := scene["absolute"]);
            }
            if "scene_2" in entry {  // a doubled episode
              var scene2 := entry["scene_2"];
              if !WellFormed(scene2) {
                return;
              }
              rec := rec.(sceneSeason := scene2["season"], sceneEpisode := scene2["episode"],
                          sceneAbsolute := scene2["absolute"]);
            }
            episodes := episodes[k := rec];
        }
        i := i + 1;
      }
    }

    // -------------------------------------------------------------------
    // Forward resolvers
    // -------------------------------------------------------------------

    method GetSceneNumbering(indexerId: Option<int>, indexer: int, season: Option<int>, episode: Option<int>,
                             fallbackToXem: bool, show: Option<bool>, now: int, xem: XemReplies)
      returns (r: (Option<int>, Option<int>))
      modifies this
      ensures overrides == old(overrides) && flushes == old(flushes)
      ensures if PairReachesXem(old(overrides), indexerId, indexer, season, episode, fallbackToXem, show)
              then ledger == LedgerAfterRefresh(old(ledger), indexerId.value, indexer, false, now)
                   && episodes == EpisodesAfterRefresh(old(episodes), old(ledger), indexerId.value, false, now, xem)
              else ledger == old(ledger) && episodes == old(episodes)
      ensures r == ScenePair(overrides, episodes, indexerId, indexer, season, episode, fallbackToXem, show)
    {
      if indexerId.None? || season.None? || episode.None? {
        return (season, episode);
      }
      if show == Some(false) {
        return (season, episode);
      }
      var id, s, e := indexerId.value, season.value, episode.value;
      var local := FindScenePair(overrides, id, indexer, s, e);
      if local.Some? {
        return (Some(local.value.0), Some(local.value.1));
      }
      if fallbackToXem {
        XemRefresh(id, indexer, false, now, xem);
        var remote := FindScenePair(episodes, id, indexer, s, e);
        if remote.Some? {
          return (Some(remote.value.0), Some(remote.value.1));
        }
      }
      return (season, episode);
    }

    method GetSceneAbsoluteNumbering(indexerId: Option<int>, indexer: int, absolute: Option<int>,
                                     fallbackToXem: bool, show: Option<bool>, now: int, xem: XemReplies)
      returns (r: Option<int>)
      modifies this
      ensures overrides == old(overrides) && flushes == old(flushes)
      ensures if AbsoluteReachesXem(old(overrides), indexerId, indexer, absolute, fallbackToXem, show)
              then ledger == LedgerAfterRefresh(old(ledger), indexerId.value, indexer, false, now)
                   && episodes == EpisodesAfterRefresh(old(episodes), old(ledger), indexerId.value, false, now, xem)
              else ledger == old(ledger) && episodes == old(episodes)
      ensures r == SceneAbsolute(overrides, episodes, indexerId, indexer, absolute, fallbackToXem, show)
    {
      if indexerId.None? || absolute.None? {
        return absolute;
      }
      if show == Some(false) {
        return absolute;
      }
      var id, a := indexerId.value, absolute.value;
      var local := FindSceneAbsolute(overrides, id, indexer, a);
      if local.Some? {
        return local;
      }
      if fallbackToXem {
        XemRefresh(id, indexer, false, now, xem);
        var remote := FindSceneAbsolute(episodes, id, indexer, a);
        if remote.Some? {
          return remote;
        }
      }
      return absolute;
    }

    // -------------------------------------------------------------------
    // Reverse resolvers
    // -------------------------------------------------------------------

    method GetIndexerNumbering(indexerId: Option<int>, indexer: int, sceneSeason: Option<int>, sceneEpisode: Option<int>,
                               fallbackToXem: bool, now: int, xem: XemReplies)
      returns (r: (Option<int>, Option<int>))
      modifies this
      ensures overrides == old(overrides) && flushes == old(flushes)
      ensures if ReversePairReachesXem(old(overrides), indexerId, indexer, sceneSeason, sceneEpisode, fallbackToXem)
              then ledger == LedgerAfterRefresh(old(ledger), indexerId.value, indexer, false, now)
                   && episodes == EpisodesAfterRefresh(old(episodes), old(ledger), indexerId.value, false, now, xem)
              else ledger == old(ledger) && episodes == old(episodes)
      ensures r == IndexerPair(overrides, episodes, indexerId, indexer, sceneSeason, sceneEpisode, fallbackToXem)
    {
      if indexerId.None? || sceneSeason.None? || sceneEpisode.None? {
        return (sceneSeason, sceneEpisode);
      }
      var id, ss, se := indexerId.value, sceneSeason.value, sceneEpisode.value;
      var local := FindNativePair(overrides, id, indexer, ss, se);
      if local.Some? {
        return (Some(local.value.0), Some(local.value.1));
      }
      if fallbackToXem {
        // get_indexer_numbering_for_xem
        XemRefresh(id, indexer, false, now, xem);
        var remote := FindNativePair(episodes, id, indexer, ss, se);
        if remote.Some? {
          return (Some(remote.value.0), Some(remote.value.1));
        }
      }
      return (sceneSeason, sceneEpisode);
    }

    method GetIndexerAbsoluteNumbering(indexerId: Option<int>, indexer: int, sceneAbsolute: Option<int>,
                                       fallbackToXem: bool, sceneSeason: Option<int>, now: int, xem: XemReplies)
      returns (r: Option<int>)
      modifies this
      ensures overrides == old(overrides) && flushes == old(flushes)
      ensures if ReverseAbsoluteReachesXem(old(overrides), indexerId, indexer, sceneAbsolute, fallbackToXem, sceneSeason)
              then ledger == LedgerAfterRefresh(old(ledger), indexerId.value, indexer, false, now)
                   && episodes == EpisodesAfterRefresh(old(episodes), old(ledger), indexerId.value, false, now, xem)
              else ledger == old(ledger) && episodes == old(episodes)
      ensures r == IndexerAbsolute(overrides, episodes, indexerId, indexer, sceneAbsolute, fallbackToXem, sceneSeason)
    {
      if indexerId.None? || sceneAbsolute.None? {
        return sceneAbsolute;
      }
      var id, sa := indexerId.value, sceneAbsolute.value;
      var local := FindNativeAbsolute(overrides, id, indexer, sa, sceneSeason);
      if local.Some? {
        return local;
      }
      if fallbackToXem {
        // get_indexer_absolute_numbering_for_xem
        XemRefresh(id, indexer, false, now, xem);
        var remote := FindNativeAbsolute(episodes, id, indexer, sa, sceneSeason);
        if remote.Some? {
          return remote;
        }
      }
      return sceneAbsolute;
    }

    // -------------------------------------------------------------------
    // Whole-series dumps
    // -------------------------------------------------------------------

    method GetSceneNumberingForShow(indexerId: Option<int>, indexer: int) returns (m: map<(int, int), (int, int)>)
      ensures m == if indexerId.None? then map[] else PairDump(overrides, indexerId.value, indexer)
    {
      m := CollectPairDump(overrides, indexerId, indexer);
    }

    method GetSceneAbsoluteNumberingForShow(indexerId: Option<int>, indexer: int) returns (m: map<int, int>)
      ensures m == if indexerId.None? then map[] else AbsoluteDump(overrides, indexerId.value, indexer)
    {
      m := CollectAbsoluteDump(overrides, indexerId, indexer);
    }

    method GetXemNumberingForShow(indexerId: Option<int>, indexer: int, now: int, xem: XemReplies)
      returns (m: map<(int, int), (int, int)>)
      modifies this
      ensures overrides == old(overrides) && flushes == old(flushes)
      ensures if indexerId.Some?
              then ledger == LedgerAfterRefresh(old(ledger), indexerId.value, indexer, false, now)
                   && episodes == EpisodesAfterRefresh(old(episodes), old(ledger), indexerId.value, false, now, xem)
              else ledger == old(ledger) && episodes == old(episodes)
      ensures m == if indexerId.None? then map[] else PairDump(episodes, indexerId.value, indexer)
    {
      if indexerId.None? {
        return map[];
      }
      XemRefresh(indexerId.value, indexer, false, now, xem);
      m := CollectPairDump(episodes, indexerId, indexer);
    }

    method GetXemAbsoluteNumberingForShow(indexerId: Option<int>, indexer: int, now: int, xem: XemReplies)
      returns (m: map<int, int>)
      modifies this
      ensures overrides == old(overrides) && flushes == old(flushes)
      ensures if indexerId.Some?
              then ledger == LedgerAfterRefresh(old(ledger), indexerId.value, indexer, false, now)
                   && episodes == EpisodesAfterRefresh(old(episodes), old(ledger), indexerId.value, false, now, xem)
              else ledger == old(ledger) && episodes == old(episodes)
      ensures m == if indexerId.None? then map[] else AbsoluteDump(episodes, indexerId.value, indexer)
    {
      if indexerId.None? {
        return map[];
      }
      XemRefresh(indexerId.value, indexer, false, now, xem);
      m := CollectAbsoluteDump(episodes, indexerId, indexer);
    }

    // -------------------------------------------------------------------
    // set_scene_numbering (with the lookup on 'indexer')
    // -------------------------------------------------------------------

    /** Update the series' override for the native pair (pair mode) or the
        native absolute number (absolute mode), or insert one; then ask the
        series to flush its episode cache. `showFound` is whether
        findCertainShow finds the series; when it does not, the flush raises,
        after the write. */
    method SetSceneNumbering(indexerId: Option<int>, indexer: int, season: int, episode: int, absolute: int,
                             sceneSeason: int, sceneEpisode: int, sceneAbsolute: int, showFound: bool)
      returns (fault: Option<Fault>)
      modifies this
      ensures episodes == old(episodes) && ledger == old(ledger)
      ensures indexerId.None? ==> overrides == old(overrides) && flushes == old(flushes) && fault.None?
      ensures indexerId.Some? ==>
                overrides == SetIntended(old(overrides), indexerId.value, indexer, season, episode, absolute,
                                         sceneSeason, sceneEpisode, sceneAbsolute)
      ensures indexerId.Some? ==> fault == if showFound then None else Some(ShowNotFound)
      // the episode cache is flushed exactly when the call returns normally
      ensures flushes == old(flushes) + (if indexerId.Some? && fault.None? then 1 else 0)
      // at most one override per series, indexer and native pair, if so before
      ensures UniquePairKeys(old(overrides)) ==> UniquePairKeys(overrides)
    {
      if indexerId.None? {
        return None;
      }
      var id := indexerId.value;
      if UniquePairKeys(overrides) {
        SetKeepsPairKeysUnique(overrides, id, indexer, season, episode, absolute, sceneSeason, sceneEpisode, sceneAbsolute);
      }
      var mode := ModeOf(season, episode, absolute);
      if mode != NoMode {
        match LocateIntended(overrides, id, indexer, mode, season, episode, absolute) {
          case Found(k) =>
            var rec := overrides[k];
            if mode == PairMode {
              rec := rec.(sceneSeason := sceneSeason, sceneEpisode := sceneEpisode);
            } else {
              rec := rec.(sceneAbsolute := sceneAbsolute);
            }
            overrides := overrides[k := rec];
          case Absent =>
            overrides := overrides + [NumberingRecord(id, indexer, season, episode, absolute,
                                                      sceneSeason, sceneEpisode, sceneAbsolute)];
          case IndexKeyMissing =>
            assert false;  // the lookup on 'indexer' never raises
        }
      }
      if !showFound {
        return Some(ShowNotFound);
      }
      flushes := flushes + 1;
      return None;
    }
  }
}
