/** The four public resolvers of scene_numbering.py as functions of the tables
    they read. Each runs the fallback chain: input guard, the "show is not
    scene-numbered" short-circuit (forward only), the local override table,
    the XEM-filled episode table (when `fallbackToXem`), then identity.

    The XEM step of the source first calls xem_refresh, which may rewrite the
    episode table; the functions here take the episode table as it is when
    that step reads it (`xemEpisodes`), and the store's methods supply the
    refreshed table. `show` is the result of looking the series up in the
    show list: None when it is not there, Some(isScene) when it is. */
module Resolver {
  import opened Seqs
  import opened Records
  import opened Lookup

  // ---------------------------------------------------------------------
  // get_scene_numbering
  // ---------------------------------------------------------------------

  /** get_scene_numbering gets as far as find_xem_numbering. */
  predicate PairReachesXem(overrides: seq<NumberingRecord>, indexerId: Option<int>, indexer: int,
                           season: Option<int>, episode: Option<int>, fallbackToXem: bool, show: Option<bool>)
  {
    indexerId.Some? && season.Some? && episode.Some? && show != Some(false)
    && FindScenePair(overrides, indexerId.value, indexer, season.value, episode.value).None?
    && fallbackToXem
  }

  function ScenePair(overrides: seq<NumberingRecord>, xemEpisodes: seq<NumberingRecord>,
                     indexerId: Option<int>, indexer: int, season: Option<int>, episode: Option<int>,
                     fallbackToXem: bool, show: Option<bool>)
    : (r: (Option<int>, Option<int>))
    // the answer is always set when the question is
    ensures r.0.Some? == season.Some? && r.1.Some? == episode.Some?
    // partial input or a series known not to use scene numbering: unchanged
    ensures indexerId.None? || season.None? || episode.None? || show == Some(false) ==> r == (season, episode)
    // any other answer is a non-zero scene pair taken from a record mapping
    // that episode: an override, or an XEM record once the XEM step is reached
    ensures r != (season, episode) ==>
              r.0.value != 0 && r.1.value != 0 &&
              ((exists k :: 0 <= k < |overrides|
                  && MapsPair(overrides[k], indexerId.value, indexer, season.value, episode.value)
                  && r == (Some(overrides[k].sceneSeason), Some(overrides[k].sceneEpisode)))
               || (PairReachesXem(overrides, indexerId, indexer, season, episode, fallbackToXem, show)
                   && exists k :: 0 <= k < |xemEpisodes|
                        && MapsPair(xemEpisodes[k], indexerId.value, indexer, season.value, episode.value)
                        && r == (Some(xemEpisodes[k].sceneSeason), Some(xemEpisodes[k].sceneEpisode))))
    // the chain, for a complete input of a series not marked otherwise:
    // the first matching override, else the first matching XEM record when
    // `fallbackToXem` is set, else the input
    ensures indexerId.Some? && season.Some? && episode.Some? && show != Some(false) ==>
              forall k :: FirstMapsPair(overrides, k, indexerId.value, indexer, season.value, episode.value) ==>
                r == (Some(overrides[k].sceneSeason), Some(overrides[k].sceneEpisode))
    ensures PairReachesXem(overrides, indexerId, indexer, season, episode, fallbackToXem, show) ==>
              forall k :: FirstMapsPair(xemEpisodes, k, indexerId.value, indexer, season.value, episode.value) ==>
                r == (Some(xemEpisodes[k].sceneSeason), Some(xemEpisodes[k].sceneEpisode))
    ensures indexerId.Some? && season.Some? && episode.Some?
            && (forall k :: 0 <= k < |overrides| ==> !MapsPair(overrides[k], indexerId.value, indexer, season.value, episode.value))
            && (!fallbackToXem
                || forall k :: 0 <= k < |xemEpisodes| ==> !MapsPair(xemEpisodes[k], indexerId.value, indexer, season.value, episode.value))
            ==> r == (season, episode)
  {
    if indexerId.None? || season.None? || episode.None? then (season, episode)
    else if show == Some(false) then (season, episode)
    else match FindScenePair(overrides, indexerId.value, indexer, season.value, episode.value)
      case Some(p) => (Some(p.0), Some(p.1))
      case None =>
        if fallbackToXem then
          match FindScenePair(xemEpisodes, indexerId.value, indexer, season.value, episode.value)
          case Some(p) => (Some(p.0), Some(p.1))
          case None => (season, episode)
        else (season, episode)
  }

  /** A matching override decides the answer whatever the XEM table holds. */
  lemma OverrideWinsOverXem(overrides: seq<NumberingRecord>, xemA: seq<NumberingRecord>, xemB: seq<NumberingRecord>,
                            indexerId: int, indexer: int, season: int, episode: int, fallbackToXem: bool, show: Option<bool>, k: int)
    requires show != Some(false)
    requires 0 <= k < |overrides| && MapsPair(overrides[k], indexerId, indexer, season, episode)
    requires forall j :: 0 <= j < k ==> !MapsPair(overrides[j], indexerId, indexer, season, episode)
    ensures ScenePair(overrides, xemA, Some(indexerId), indexer, Some(season), Some(episode), fallbackToXem, show)
            == (Some(overrides[k].sceneSeason), Some(overrides[k].sceneEpisode))
    ensures ScenePair(overrides, xemA, Some(indexerId), indexer, Some(season), Some(episode), fallbackToXem, show)
            == ScenePair(overrides, xemB, Some(indexerId), indexer, Some(season), Some(episode), fallbackToXem, show)
  {
    var p := FindScenePair(overrides, indexerId, indexer, season, episode);
    assert p.Some?;
    var k' :| 0 <= k' < |overrides| && MapsPair(overrides[k'], indexerId, indexer, season, episode)
              && (forall j :: 0 <= j < k' ==> !MapsPair(overrides[j], indexerId, indexer, season, episode))
              && p.value == (overrides[k'].sceneSeason, overrides[k'].sceneEpisode);
    assert k' == k;
  }

  /** Without `fallbackToXem` the XEM table is never consulted. */
  lemma NoFallbackIgnoresXem(overrides: seq<NumberingRecord>, xemA: seq<NumberingRecord>, xemB: seq<NumberingRecord>,
                             indexerId: Option<int>, indexer: int, season: Option<int>, episode: Option<int>, show: Option<bool>)
    ensures ScenePair(overrides, xemA, indexerId, indexer, season, episode, false, show)
            == ScenePair(overrides, xemB, indexerId, indexer, season, episode, false, show)
  {
  }

  // ---------------------------------------------------------------------
  // get_scene_absolute_numbering
  // ---------------------------------------------------------------------

  /** get_scene_absolute_numbering gets as far as find_xem_absolute_numbering. */
  predicate AbsoluteReachesXem(overrides: seq<NumberingRecord>, indexerId: Option<int>, indexer: int,
                               absolute: Option<int>, fallbackToXem: bool, show: Option<bool>)
  {
    indexerId.Some? && absolute.Some? && show != Some(false)
    && FindSceneAbsolute(overrides, indexerId.value, indexer, absolute.value).None?
    && fallbackToXem
  }

  function SceneAbsolute(overrides: seq<NumberingRecord>, xemEpisodes: seq<NumberingRecord>,
                         indexerId: Option<int>, indexer: int, absolute: Option<int>,
                         fallbackToXem: bool, show: Option<bool>)
    : (r: Option<int>)
    ensures r.Some? == absolute.Some?
    ensures indexerId.None? || absolute.None? || show == Some(false) ==> r == absolute
    ensures r != absolute ==>
              r.value != 0 &&
              ((exists k :: 0 <= k < |overrides|
                  && MapsAbsolute(overrides[k], indexerId.value, indexer, absolute.value)
                  && r.value == overrides[k].sceneAbsolute)
               || (AbsoluteReachesXem(overrides, indexerId, indexer, absolute, fallbackToXem, show)
                   && exists k :: 0 <= k < |xemEpisodes|
                        && MapsAbsolute(xemEpisodes[k], indexerId.value, indexer, absolute.value)
                        && r.value == xemEpisodes[k].sceneAbsolute))
    ensures indexerId.Some? && absolute.Some? && show != Some(false) ==>
              forall k :: FirstMapsAbsolute(overrides, k, indexerId.value, indexer, absolute.value) ==>
                r == Some(overrides[k].sceneAbsolute)
    ensures AbsoluteReachesXem(overrides, indexerId, indexer, absolute, fallbackToXem, show) ==>
              forall k :: FirstMapsAbsolute(xemEpisodes, k, indexerId.value, indexer, absolute.value) ==>
                r == Some(xemEpisodes[k].sceneAbsolute)
    ensures indexerId.Some? && absolute.Some?
            && (forall k :: 0 <= k < |overrides| ==> !MapsAbsolute(overrides[k], indexerId.value, indexer, absolute.value))
            && (!fallbackToXem
                || forall k :: 0 <= k < |xemEpisodes| ==> !MapsAbsolute(xemEpisodes[k], indexerId.value, indexer, absolute.value))
            ==> r == absolute
  {
    if indexerId.None? || absolute.None? then absolute
    else if show == Some(false) then absolute
    else match FindSceneAbsolute(overrides, indexerId.value, indexer, absolute.value)
      case Some(a) => Some(a)
      case None =>
        if fallbackToXem then
          match FindSceneAbsolute(xemEpisodes, indexerId.value, indexer, absolute.value)
          case Some(a) => Some(a)
          case None => absolute
        else absolute
  }

  // ---------------------------------------------------------------------
  // get_indexer_numbering (reverse; overrides first, then XEM, then identity)
  // ---------------------------------------------------------------------

  /** get_indexer_numbering gets as far as get_indexer_numbering_for_xem. */
  predicate ReversePairReachesXem(overrides: seq<NumberingRecord>, indexerId: Option<int>, indexer: int,
                                  sceneSeason: Option<int>, sceneEpisode: Option<int>, fallbackToXem: bool)
  {
    indexerId.Some? && sceneSeason.Some? && sceneEpisode.Some?
    && FindNativePair(overrides, indexerId.value, indexer, sceneSeason.value, sceneEpisode.value).None?
    && fallbackToXem
  }

  function IndexerPair(overrides: seq<NumberingRecord>, xemEpisodes: seq<NumberingRecord>,
                       indexerId: Option<int>, indexer: int, sceneSeason: Option<int>, sceneEpisode: Option<int>,
                       fallbackToXem: bool)
    : (r: (Option<int>, Option<int>))
    ensures r.0.Some? == sceneSeason.Some? && r.1.Some? == sceneEpisode.Some?
    ensures indexerId.None? || sceneSeason.None? || sceneEpisode.None? ==> r == (sceneSeason, sceneEpisode)
    // any other answer is the native pair of a record carrying that scene pair
    ensures r != (sceneSeason, sceneEpisode) ==>
              (exists k :: 0 <= k < |overrides|
                 && HasScenePair(overrides[k], indexerId.value, indexer, sceneSeason.value, sceneEpisode.value)
                 && r == (Some(overrides[k].season), Some(overrides[k].episode)))
              || (ReversePairReachesXem(overrides, indexerId, indexer, sceneSeason, sceneEpisode, fallbackToXem)
                  && exists k :: 0 <= k < |xemEpisodes|
                       && HasScenePair(xemEpisodes[k], indexerId.value, indexer, sceneSeason.value, sceneEpisode.value)
                       && r == (Some(xemEpisodes[k].season), Some(xemEpisodes[k].episode)))
    ensures indexerId.Some? && sceneSeason.Some? && sceneEpisode.Some? ==>
              forall k :: FirstHasScenePair(overrides, k, indexerId.value, indexer, sceneSeason.value, sceneEpisode.value) ==>
                r == (Some(overrides[k].season), Some(overrides[k].episode))
    ensures ReversePairReachesXem(overrides, indexerId, indexer, sceneSeason, sceneEpisode, fallbackToXem) ==>
              forall k :: FirstHasScenePair(xemEpisodes, k, indexerId.value, indexer, sceneSeason.value, sceneEpisode.value) ==>
                r == (Some(xemEpisodes[k].season), Some(xemEpisodes[k].episode))
    ensures indexerId.Some? && sceneSeason.Some? && sceneEpisode.Some?
            && (forall k :: 0 <= k < |overrides| ==>
                  !HasScenePair(overrides[k], indexerId.value, indexer, sceneSeason.value, sceneEpisode.value))
            && (!fallbackToXem
                || forall k :: 0 <= k < |xemEpisodes| ==>
                     !HasScenePair(xemEpisodes[k], indexerId.value, indexer, sceneSeason.value, sceneEpisode.value))
            ==> r == (sceneSeason, sceneEpisode)
  {
    if indexerId.None? || sceneSeason.None? || sceneEpisode.None? then (sceneSeason, sceneEpisode)
    else match FindNativePair(overrides, indexerId.value, indexer, sceneSeason.value, sceneEpisode.value)
      case Some(p) => (Some(p.0), Some(p.1))
      case None =>
        if fallbackToXem then
          match FindNativePair(xemEpisodes, indexerId.value, indexer, sceneSeason.value, sceneEpisode.value)
          case Some(p) => (Some(p.0), Some(p.1))
          case None => (sceneSeason, sceneEpisode)
        else (sceneSeason, sceneEpisode)
  }

  // ---------------------------------------------------------------------
  // get_indexer_absolute_numbering
  // ---------------------------------------------------------------------

  /** get_indexer_absolute_numbering gets as far as its XEM variant. */
  predicate ReverseAbsoluteReachesXem(overrides: seq<NumberingRecord>, indexerId: Option<int>, indexer: int,
                                      sceneAbsolute: Option<int>, fallbackToXem: bool, sceneSeason: Option<int>)
  {
    indexerId.Some? && sceneAbsolute.Some?
    && FindNativeAbsolute(overrides, indexerId.value, indexer, sceneAbsolute.value, sceneSeason).None?
    && fallbackToXem
  }

  function IndexerAbsolute(overrides: seq<NumberingRecord>, xemEpisodes: seq<NumberingRecord>,
                           indexerId: Option<int>, indexer: int, sceneAbsolute: Option<int>,
                           fallbackToXem: bool, sceneSeason: Option<int>)
    : (r: Option<int>)
    ensures r.Some? == sceneAbsolute.Some?
    ensures indexerId.None? || sceneAbsolute.None? ==> r == sceneAbsolute
    ensures r != sceneAbsolute ==>
              (exists k :: 0 <= k < |overrides|
                 && HasSceneAbsolute(overrides[k], indexerId.value, indexer, sceneAbsolute.value, sceneSeason)
                 && r.value == overrides[k].absolute)
              || (ReverseAbsoluteReachesXem(overrides, indexerId, indexer, sceneAbsolute, fallbackToXem, sceneSeason)
                  && exists k :: 0 <= k < |xemEpisodes|
                       && HasSceneAbsolute(xemEpisodes[k], indexerId.value, indexer, sceneAbsolute.value, sceneSeason)
                       && r.value == xemEpisodes[k].absolute)
    ensures indexerId.Some? && sceneAbsolute.Some? ==>
              forall k :: FirstHasSceneAbsolute(overrides, k, indexerId.value, indexer, sceneAbsolute.value, sceneSeason) ==>
                r == Some(overrides[k].absolute)
    ensures ReverseAbsoluteReachesXem(overrides, indexerId, indexer, sceneAbsolute, fallbackToXem, sceneSeason) ==>
              forall k :: FirstHasSceneAbsolute(xemEpisodes, k, indexerId.value, indexer, sceneAbsolute.value, sceneSeason) ==>
                r == Some(xemEpisodes[k].absolute)
    ensures indexerId.Some? && sceneAbsolute.Some?
            && (forall k :: 0 <= k < |overrides| ==>
                  !HasSceneAbsolute(overrides[k], indexerId.value, indexer, sceneAbsolute.value, sceneSeason))
            && (!fallbackToXem
                || forall k :: 0 <= k < |xemEpisodes| ==>
                     !HasSceneAbsolute(xemEpisodes[k], indexerId.value, indexer, sceneAbsolute.value, sceneSeason))
            ==> r == sceneAbsolute
  {
    if indexerId.None? || sceneAbsolute.None? then sceneAbsolute
    else match FindNativeAbsolute(overrides, indexerId.value, indexer, sceneAbsolute.value, sceneSeason)
      case Some(a) => Some(a)
      case None =>
        if fallbackToXem then
          match FindNativeAbsolute(xemEpisodes, indexerId.value, indexer, sceneAbsolute.value, sceneSeason)
          case Some(a) => Some(a)
          case None => sceneAbsolute
        else sceneAbsolute
  }

  // ---------------------------------------------------------------------
  // Worked examples
  // ---------------------------------------------------------------------

  /** Series 100 on indexer 1 with no override and no XEM mapping: the
      native pair comes back unchanged. */
  lemma UnmappedEpisodeIsIdentity()
    ensures ScenePair([], [NumberingRecord(100, 1, 1, 1, 1, 0, 0, 0)], Some(100), 1, Some(1), Some(1), true, None)
            == (Some(1), Some(1))
  {
  }

  /** An override S01E01 -> S01E13 is found by the forward lookup, and the
      reverse lookup finds it too, in the override table, without any XEM
      data: get_indexer_numbering reads the override table before XEM. */
  lemma OverrideIsReadBothWays()
    ensures var ovs := [NumberingRecord(100, 1, 1, 1, 0, 1, 13, 0)];
            ScenePair(ovs, [], Some(100), 1, Some(1), Some(1), true, Some(true)) == (Some(1), Some(13))
            && IndexerPair(ovs, [], Some(100), 1, Some(1), Some(13), true) == (Some(1), Some(1))
  {
    var ovs := [NumberingRecord(100, 1, 1, 1, 0, 1, 13, 0)];
    assert MapsPair(ovs[0], 100, 1, 1, 1);
    assert HasScenePair(ovs[0], 100, 1, 1, 13);
  }
}
