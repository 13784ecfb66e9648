/** The record filters of scene_numbering.py: each is a list comprehension over
    one series' partition of a table, of which the first element is taken.
    The same filter is applied to the override table ('scene_numbering') and
    to the episode table ('tv_episodes'). */
module Lookup {
  import opened Seqs
  import opened Records

  // ---------------------------------------------------------------------
  // Forward: native numbering -> scene numbering (zero means unmapped)
  // ---------------------------------------------------------------------

  /** The record maps native (season, episode) to a scene pair with both
      components non-zero. */
  predicate MapsPair(x: NumberingRecord, indexerId: int, indexer: int, season: int, episode: int)
  {
    OfShow(x, indexerId, indexer) && x.season == season && x.episode == episode
    && x.sceneSeason != 0 && x.sceneEpisode != 0
  }

  /** Record k is the first that maps native (season, episode). */
  predicate FirstMapsPair(recs: seq<NumberingRecord>, k: int, indexerId: int, indexer: int, season: int, episode: int)
  {
    0 <= k < |recs| && MapsPair(recs[k], indexerId, indexer, season, episode)
    && forall j :: 0 <= j < k ==> !MapsPair(recs[j], indexerId, indexer, season, episode)
  }

  /** find_scene_numbering / find_xem_numbering: the scene pair of the first
      record mapping (season, episode), or None. */
  function FindScenePair(recs: seq<NumberingRecord>, indexerId: int, indexer: int, season: int, episode: int)
    : (r: Option<(int, int)>)
    ensures r.None? <==> forall k :: 0 <= k < |recs| ==> !MapsPair(recs[k], indexerId, indexer, season, episode)
    ensures r.Some? ==> exists k :: 0 <= k < |recs| && MapsPair(recs[k], indexerId, indexer, season, episode)
                                    && (forall j :: 0 <= j < k ==> !MapsPair(recs[j], indexerId, indexer, season, episode))
                                    && r.value == (recs[k].sceneSeason, recs[k].sceneEpisode)
    ensures r.Some? ==> r.value.0 != 0 && r.value.1 != 0
    ensures forall k :: FirstMapsPair(recs, k, indexerId, indexer, season, episode) ==>
              r == Some((recs[k].sceneSeason, recs[k].sceneEpisode))
  {
    match FirstIndex(recs, x => MapsPair(x, indexerId, indexer, season, episode))
    case None => None
    case Some(k) => Some((recs[k].sceneSeason, recs[k].sceneEpisode))
  }

  /** The record maps the native absolute number to a non-zero scene absolute number. */
  predicate MapsAbsolute(x: NumberingRecord, indexerId: int, indexer: int, absolute: int)
  {
    OfShow(x, indexerId, indexer) && x.absolute == absolute && x.sceneAbsolute != 0
  }

  /** Record k is the first that maps the native absolute number. */
  predicate FirstMapsAbsolute(recs: seq<NumberingRecord>, k: int, indexerId: int, indexer: int, absolute: int)
  {
    0 <= k < |recs| && MapsAbsolute(recs[k], indexerId, indexer, absolute)
    && forall j :: 0 <= j < k ==> !MapsAbsolute(recs[j], indexerId, indexer, absolute)
  }

  /** find_scene_absolute_numbering / find_xem_absolute_numbering. */
  function FindSceneAbsolute(recs: seq<NumberingRecord>, indexerId: int, indexer: int, absolute: int)
    : (r: Option<int>)
    ensures r.None? <==> forall k :: 0 <= k < |recs| ==> !MapsAbsolute(recs[k], indexerId, indexer, absolute)
    ensures r.Some? ==> exists k :: 0 <= k < |recs| && MapsAbsolute(recs[k], indexerId, indexer, absolute)
                                    && (forall j :: 0 <= j < k ==> !MapsAbsolute(recs[j], indexerId, indexer, absolute))
                                    && r.value == recs[k].sceneAbsolute
    ensures r.Some? ==> r.value != 0
    ensures forall k :: FirstMapsAbsolute(recs, k, indexerId, indexer, absolute) ==> r == Some(recs[k].sceneAbsolute)
  {
    match FirstIndex(recs, x => MapsAbsolute(x, indexerId, indexer, absolute))
    case None => None
    case Some(k) => Some(recs[k].sceneAbsolute)
  }

  // ---------------------------------------------------------------------
  // Reverse: scene numbering -> native numbering (no non-zero test)
  // ---------------------------------------------------------------------

  /** The record's scene pair equals the query. */
  predicate HasScenePair(x: NumberingRecord, indexerId: int, indexer: int, sceneSeason: int, sceneEpisode: int)
  {
    OfShow(x, indexerId, indexer) && x.sceneSeason == sceneSeason && x.sceneEpisode == sceneEpisode
  }

  /** Record k is the first that carries scene pair (sceneSeason, sceneEpisode). */
  predicate FirstHasScenePair(recs: seq<NumberingRecord>, k: int, indexerId: int, indexer: int, sceneSeason: int, sceneEpisode: int)
  {
    0 <= k < |recs| && HasScenePair(recs[k], indexerId, indexer, sceneSeason, sceneEpisode)
    && forall j :: 0 <= j < k ==> !HasScenePair(recs[j], indexerId, indexer, sceneSeason, sceneEpisode)
  }

  /** The filter of get_indexer_numbering and get_indexer_numbering_for_xem:
      the native pair of the first record carrying the scene pair. */
  function FindNativePair(recs: seq<NumberingRecord>, indexerId: int, indexer: int, sceneSeason: int, sceneEpisode: int)
    : (r: Option<(int, int)>)
    ensures r.None? <==> forall k :: 0 <= k < |recs| ==> !HasScenePair(recs[k], indexerId, indexer, sceneSeason, sceneEpisode)
    ensures r.Some? ==> exists k :: 0 <= k < |recs| && HasScenePair(recs[k], indexerId, indexer, sceneSeason, sceneEpisode)
                                    && (forall j :: 0 <= j < k ==> !HasScenePair(recs[j], indexerId, indexer, sceneSeason, sceneEpisode))
                                    && r.value == (recs[k].season, recs[k].episode)
    ensures forall k :: FirstHasScenePair(recs, k, indexerId, indexer, sceneSeason, sceneEpisode) ==>
              r == Some((recs[k].season, recs[k].episode))
  {
    match FirstIndex(recs, x => HasScenePair(x, indexerId, indexer, sceneSeason, sceneEpisode))
    case None => None
    case Some(k) => Some((recs[k].season, recs[k].episode))
  }

  /** The record's scene absolute number equals the query and, when a scene
      season is given, so does its scene season. */
  predicate HasSceneAbsolute(x: NumberingRecord, indexerId: int, indexer: int, sceneAbsolute: int, sceneSeason: Option<int>)
  {
    OfShow(x, indexerId, indexer) && x.sceneAbsolute == sceneAbsolute
    && (sceneSeason.Some? ==> x.sceneSeason == sceneSeason.value)
  }

  /** Record k is the first that carries the scene absolute number (and the
      scene season, when one is given). */
  predicate FirstHasSceneAbsolute(recs: seq<NumberingRecord>, k: int, indexerId: int, indexer: int,
                                  sceneAbsolute: int, sceneSeason: Option<int>)
  {
    0 <= k < |recs| && HasSceneAbsolute(recs[k], indexerId, indexer, sceneAbsolute, sceneSeason)
    && forall j :: 0 <= j < k ==> !HasSceneAbsolute(recs[j], indexerId, indexer, sceneAbsolute, sceneSeason)
  }

  /** The filter of get_indexer_absolute_numbering and its XEM variant. */
  function FindNativeAbsolute(recs: seq<NumberingRecord>, indexerId: int, indexer: int, sceneAbsolute: int, sceneSeason: Option<int>)
    : (r: Option<int>)
    ensures r.None? <==> forall k :: 0 <= k < |recs| ==> !HasSceneAbsolute(recs[k], indexerId, indexer, sceneAbsolute, sceneSeason)
    ensures r.Some? ==> exists k :: 0 <= k < |recs| && HasSceneAbsolute(recs[k], indexerId, indexer, sceneAbsolute, sceneSeason)
                                    && (forall j :: 0 <= j < k ==> !HasSceneAbsolute(recs[j], indexerId, indexer, sceneAbsolute, sceneSeason))
                                    && r.value == recs[k].absolute
    ensures forall k :: FirstHasSceneAbsolute(recs, k, indexerId, indexer, sceneAbsolute, sceneSeason) ==>
              r == Some(recs[k].absolute)
  {
    match FirstIndex(recs, x => HasSceneAbsolute(x, indexerId, indexer, sceneAbsolute, sceneSeason))
    case None => None
    case Some(k) => Some(recs[k].absolute)
  }

  /** When every record of the show that carries scene pair (ss, se) is the
      native episode (season, episode) — in particular when the scene pair is
      used once — the reverse lookup undoes the forward one. */
  lemma ReverseUndoesForward(recs: seq<NumberingRecord>, indexerId: int, indexer: int, season: int, episode: int)
    requires FindScenePair(recs, indexerId, indexer, season, episode).Some?
    requires var p := FindScenePair(recs, indexerId, indexer, season, episode).value;
             forall j :: 0 <= j < |recs| && HasScenePair(recs[j], indexerId, indexer, p.0, p.1)
                         ==> recs[j].season == season && recs[j].episode == episode
    ensures var p := FindScenePair(recs, indexerId, indexer, season, episode).value;
            FindNativePair(recs, indexerId, indexer, p.0, p.1) == Some((season, episode))
  {
    var p := FindScenePair(recs, indexerId, indexer, season, episode).value;
    var k :| 0 <= k < |recs| && MapsPair(recs[k], indexerId, indexer, season, episode)
             && p == (recs[k].sceneSeason, recs[k].sceneEpisode);
    assert HasScenePair(recs[k], indexerId, indexer, p.0, p.1);
  }

  /** The absolute counterpart: the reverse absolute lookup (without a scene
      season filter) undoes the forward one when the scene number is used
      only by records of that native absolute number. */
  lemma ReverseAbsoluteUndoesForward(recs: seq<NumberingRecord>, indexerId: int, indexer: int, absolute: int)
    requires FindSceneAbsolute(recs, indexerId, indexer, absolute).Some?
    requires var a := FindSceneAbsolute(recs, indexerId, indexer, absolute).value;
             forall j :: 0 <= j < |recs| && HasSceneAbsolute(recs[j], indexerId, indexer, a, None)
                         ==> recs[j].absolute == absolute
    ensures var a := FindSceneAbsolute(recs, indexerId, indexer, absolute).value;
            FindNativeAbsolute(recs, indexerId, indexer, a, None) == Some(absolute)
  {
    var a := FindSceneAbsolute(recs, indexerId, indexer, absolute).value;
    var k :| 0 <= k < |recs| && MapsAbsolute(recs[k], indexerId, indexer, absolute) && a == recs[k].sceneAbsolute;
    assert HasSceneAbsolute(recs[k], indexerId, indexer, a, None);
  }

  // ---------------------------------------------------------------------
  // get_absolute_number_from_season_and_episode
  // ---------------------------------------------------------------------

  /** Python truthiness of an optional int: set and non-zero. */
  predicate Truthy(x: Option<int>)
  {
    x.Some? && x.value != 0
  }

  /** An episode record of the series with that native season and episode,
      whatever its indexer. */
  predicate IsEpisode(x: NumberingRecord, showId: int, season: int, episode: int)
  {
    x.indexerId == showId && x.season == season && x.episode == episode
  }

  /** The absolute number of the episode, only when exactly one record of the
      series matches the season and episode. */
  function AbsoluteNumberOf(episodes: seq<NumberingRecord>, showId: int, season: Option<int>, episode: Option<int>)
    : (r: Option<int>)
    ensures r.Some? ==> Truthy(season) && Truthy(episode)
    ensures r.Some? ==> exists k :: 0 <= k < |episodes| && IsEpisode(episodes[k], showId, season.value, episode.value)
                                    && r.value == episodes[k].absolute
  {
    if Truthy(season) && Truthy(episode) then
      var p := x => IsEpisode(x, showId, season.value, episode.value);
      if CountWhere(episodes, p) == 1 then
        match FirstIndex(episodes, p)
        case Some(k) => Some(episodes[k].absolute)
        case None => None
      else None
    else None
  }

  /** The answer is present exactly when one record matches, and it is that
      record's absolute number. */
  lemma AbsoluteNumberOnlyWhenUnique(episodes: seq<NumberingRecord>, showId: int, season: int, episode: int, k: int)
    requires season != 0 && episode != 0
    requires 0 <= k < |episodes| && IsEpisode(episodes[k], showId, season, episode)
    ensures AbsoluteNumberOf(episodes, showId, Some(season), Some(episode)) == Some(episodes[k].absolute)
            <==> forall j :: 0 <= j < |episodes| && j != k ==> !IsEpisode(episodes[j], showId, season, episode)
  {
    var p := x => IsEpisode(x, showId, season, episode);
    CountIsOneIffOnlyMatch(episodes, p, k);
    if forall j :: 0 <= j < |episodes| && j != k ==> !p(episodes[j]) {
      var f := FirstIndex(episodes, p);
      assert f.Some? && f.value == k;
    } else {
      assert CountWhere(episodes, p) != 1;
    }
  }
}
