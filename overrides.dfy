/** set_scene_numbering on the override table: choose pair mode or absolute
    mode, look the override up, then update it in place or insert a new one.

    The lookup in the source filters on `x['doc']['index']`, while every
    override it writes carries the key 'indexer' and none carries 'index'.
    Evaluating that filter over a non-empty partition therefore raises
    KeyError before anything is written. `LocateAsWritten` and `SetAsWritten`
    model the code as written; `LocateIntended` filters on 'indexer', and
    `SetIntended` is the update-or-insert the code evidently means, with its
    round trip through the forward lookup proved. The store's method performs
    `SetIntended`. */
module Overrides {
  import opened Seqs
  import opened Records
  import opened Lookup

  datatype Mode = PairMode | AbsoluteMode | NoMode

  /** `if season and episode:` ... `elif absolute_number:` */
  function ModeOf(season: int, episode: int, absolute: int): (m: Mode)
    ensures m == PairMode <==> season != 0 && episode != 0
    ensures m == AbsoluteMode <==> (season == 0 || episode == 0) && absolute != 0
  {
    if season != 0 && episode != 0 then PairMode
    else if absolute != 0 then AbsoluteMode
    else NoMode
  }

  datatype Located = Found(pos: nat) | Absent | IndexKeyMissing

  /** The override a pair-mode call looks for. */
  predicate PairKey(x: NumberingRecord, indexerId: int, indexer: int, season: int, episode: int)
  {
    OfShow(x, indexerId, indexer) && x.season == season && x.episode == episode
  }

  /** The override an absolute-mode call looks for. */
  predicate AbsoluteKey(x: NumberingRecord, indexerId: int, indexer: int, absolute: int)
  {
    OfShow(x, indexerId, indexer) && x.absolute == absolute
  }

  /** The lookup as written: the first record of the partition has no 'index'
      key, so a non-empty partition raises KeyError; an empty one yields no
      record. */
  function LocateAsWritten(overrides: seq<NumberingRecord>, indexerId: int): (l: Located)
    ensures l != IndexKeyMissing <==> forall j :: 0 <= j < |overrides| ==> overrides[j].indexerId != indexerId
    ensures !l.Found?
  {
    if FirstIndex(overrides, (x: NumberingRecord) => x.indexerId == indexerId).Some? then IndexKeyMissing
    else Absent
  }

  /** The lookup filtering on 'indexer': the first override with the key of
      the mode. */
  function LocateIntended(overrides: seq<NumberingRecord>, indexerId: int, indexer: int, mode: Mode,
                          season: int, episode: int, absolute: int)
    : (l: Located)
    ensures !l.IndexKeyMissing?
    ensures l.Found? ==> l.pos < |overrides|
    ensures mode == PairMode ==>
              (l.Found? ==> PairKey(overrides[l.pos], indexerId, indexer, season, episode)
                            && forall j :: 0 <= j < l.pos ==> !PairKey(overrides[j], indexerId, indexer, season, episode))
              && (l.Absent? <==> forall j :: 0 <= j < |overrides| ==> !PairKey(overrides[j], indexerId, indexer, season, episode))
    ensures mode == AbsoluteMode ==>
              (l.Found? ==> AbsoluteKey(overrides[l.pos], indexerId, indexer, absolute)
                            && forall j :: 0 <= j < l.pos ==> !AbsoluteKey(overrides[j], indexerId, indexer, absolute))
              && (l.Absent? <==> forall j :: 0 <= j < |overrides| ==> !AbsoluteKey(overrides[j], indexerId, indexer, absolute))
  {
    var k := match mode
      case PairMode => FirstIndex(overrides, (x: NumberingRecord) => PairKey(x, indexerId, indexer, season, episode))
      case AbsoluteMode => FirstIndex(overrides, (x: NumberingRecord) => AbsoluteKey(x, indexerId, indexer, absolute))
      case NoMode => None;
    match k
    case Some(p) => Found(p)
    case None => Absent
  }

  /** The write that follows the lookup: update the scene pair (pair mode) or
      the scene absolute number (absolute mode) of the record found, or insert
      a record with all eight fields; nothing when the lookup raised or
      neither mode applies. */
  function Upsert(overrides: seq<NumberingRecord>, located: Located, mode: Mode,
                  indexerId: int, indexer: int, season: int, episode: int, absolute: int,
                  sceneSeason: int, sceneEpisode: int, sceneAbsolute: int)
    : (r: seq<NumberingRecord>)
    requires located.Found? ==> located.pos < |overrides|
    ensures mode == NoMode || located.IndexKeyMissing? ==> r == overrides
    ensures mode != NoMode && located.Found? ==>
              |r| == |overrides|
              && (forall i :: 0 <= i < |r| && i != located.pos ==> r[i] == overrides[i])
              && r[located.pos] == if mode == PairMode
                                   then overrides[located.pos].(sceneSeason := sceneSeason, sceneEpisode := sceneEpisode)
                                   else overrides[located.pos].(sceneAbsolute := sceneAbsolute)
    ensures mode != NoMode && located.Absent? ==>
              r == overrides + [NumberingRecord(indexerId, indexer, season, episode, absolute,
                                                sceneSeason, sceneEpisode, sceneAbsolute)]
  {
    if mode == NoMode then overrides
    else match located
      case IndexKeyMissing => overrides
      case Found(k) =>
        if mode == PairMode then overrides[k := overrides[k].(sceneSeason := sceneSeason, sceneEpisode := sceneEpisode)]
        else overrides[k := overrides[k].(sceneAbsolute := sceneAbsolute)]
      case Absent =>
        overrides + [NumberingRecord(indexerId, indexer, season, episode, absolute, sceneSeason, sceneEpisode, sceneAbsolute)]
  }

  /** set_scene_numbering as written, on the override table: it never
      updates a record in place; it appends one or writes nothing. */
  function SetAsWritten(overrides: seq<NumberingRecord>, indexerId: int, indexer: int,
                        season: int, episode: int, absolute: int,
                        sceneSeason: int, sceneEpisode: int, sceneAbsolute: int)
    : (r: seq<NumberingRecord>)
    ensures r == overrides
            || r == overrides + [NumberingRecord(indexerId, indexer, season, episode, absolute,
                                                 sceneSeason, sceneEpisode, sceneAbsolute)]
  {
    Upsert(overrides, LocateAsWritten(overrides, indexerId), ModeOf(season, episode, absolute),
           indexerId, indexer, season, episode, absolute, sceneSeason, sceneEpisode, sceneAbsolute)
  }

  /** set_scene_numbering with the lookup on 'indexer': at most one record is
      added, and the overrides of other series are untouched. */
  function SetIntended(overrides: seq<NumberingRecord>, indexerId: int, indexer: int,
                       season: int, episode: int, absolute: int,
                       sceneSeason: int, sceneEpisode: int, sceneAbsolute: int)
    : (r: seq<NumberingRecord>)
    ensures |overrides| <= |r| <= |overrides| + 1
    ensures forall i :: 0 <= i < |overrides| && overrides[i].indexerId != indexerId ==> r[i] == overrides[i]
  {
    var mode := ModeOf(season, episode, absolute);
    Upsert(overrides, LocateIntended(overrides, indexerId, indexer, mode, season, episode, absolute), mode,
           indexerId, indexer, season, episode, absolute, sceneSeason, sceneEpisode, sceneAbsolute)
  }

  /** Setting a non-zero scene pair for a native pair makes the forward
      lookup return it. */
  lemma SetThenLookupRoundTrip(overrides: seq<NumberingRecord>, indexerId: int, indexer: int,
                               season: int, episode: int, absolute: int,
                               sceneSeason: int, sceneEpisode: int, sceneAbsolute: int)
    requires season != 0 && episode != 0 && sceneSeason != 0 && sceneEpisode != 0
    ensures FindScenePair(SetIntended(overrides, indexerId, indexer, season, episode, absolute,
                                      sceneSeason, sceneEpisode, sceneAbsolute),
                          indexerId, indexer, season, episode)
            == Some((sceneSeason, sceneEpisode))
  {
    var r := SetIntended(overrides, indexerId, indexer, season, episode, absolute, sceneSeason, sceneEpisode, sceneAbsolute);
    var l := LocateIntended(overrides, indexerId, indexer, PairMode, season, episode, absolute);
    var k := if l.Found? then l.pos else |overrides|;
    assert MapsPair(r[k], indexerId, indexer, season, episode);
    forall j | 0 <= j < k ensures !MapsPair(r[j], indexerId, indexer, season, episode) {
      assert r[j] == overrides[j];
      assert !PairKey(overrides[j], indexerId, indexer, season, episode);
    }
    var f := FindScenePair(r, indexerId, indexer, season, episode);
    var k' :| 0 <= k' < |r| && MapsPair(r[k'], indexerId, indexer, season, episode)
              && (forall j :: 0 <= j < k' ==> !MapsPair(r[j], indexerId, indexer, season, episode))
              && f.value == (r[k'].sceneSeason, r[k'].sceneEpisode);
    assert k' == k;
  }

  /** Setting a non-zero scene absolute number in absolute mode makes the
      forward absolute lookup return it. */
  lemma SetAbsoluteThenLookupRoundTrip(overrides: seq<NumberingRecord>, indexerId: int, indexer: int,
                                       season: int, episode: int, absolute: int,
                                       sceneSeason: int, sceneEpisode: int, sceneAbsolute: int)
    requires (season == 0 || episode == 0) && absolute != 0 && sceneAbsolute != 0
    ensures FindSceneAbsolute(SetIntended(overrides, indexerId, indexer, season, episode, absolute,
                                          sceneSeason, sceneEpisode, sceneAbsolute),
                              indexerId, indexer, absolute)
            == Some(sceneAbsolute)
  {
    var r := SetIntended(overrides, indexerId, indexer, season, episode, absolute, sceneSeason, sceneEpisode, sceneAbsolute);
    var l := LocateIntended(overrides, indexerId, indexer, AbsoluteMode, season, episode, absolute);
    var k := if l.Found? then l.pos else |overrides|;
    assert MapsAbsolute(r[k], indexerId, indexer, absolute);
    forall j | 0 <= j < k ensures !MapsAbsolute(r[j], indexerId, indexer, absolute) {
      assert r[j] == overrides[j];
      assert !AbsoluteKey(overrides[j], indexerId, indexer, absolute);
    }
    var f := FindSceneAbsolute(r, indexerId, indexer, absolute);
    var k' :| 0 <= k' < |r| && MapsAbsolute(r[k'], indexerId, indexer, absolute)
              && (forall j :: 0 <= j < k' ==> !MapsAbsolute(r[j], indexerId, indexer, absolute))
              && f.value == r[k'].sceneAbsolute;
    assert k' == k;
  }

  /** At most one override per series, indexer and native pair (both parts
      non-zero): the table invariant pair-mode writes rely on. */
  ghost predicate UniquePairKeys(overrides: seq<NumberingRecord>)
  {
    forall i, j :: 0 <= i < j < |overrides| && overrides[i].season != 0 && overrides[i].episode != 0 ==>
      !PairKey(overrides[j], overrides[i].indexerId, overrides[i].indexer, overrides[i].season, overrides[i].episode)
  }

  /** The intended write keeps the invariant. */
  lemma SetKeepsPairKeysUnique(overrides: seq<NumberingRecord>, indexerId: int, indexer: int,
                               season: int, episode: int, absolute: int,
                               sceneSeason: int, sceneEpisode: int, sceneAbsolute: int)
    requires UniquePairKeys(overrides)
    ensures UniquePairKeys(SetIntended(overrides, indexerId, indexer, season, episode, absolute,
                                       sceneSeason, sceneEpisode, sceneAbsolute))
  {
    var r := SetIntended(overrides, indexerId, indexer, season, episode, absolute, sceneSeason, sceneEpisode, sceneAbsolute);
    var mode := ModeOf(season, episode, absolute);
    var l := LocateIntended(overrides, indexerId, indexer, mode, season, episode, absolute);
    if mode != NoMode && l.Absent? {
      forall i, j | 0 <= i < j < |r| && r[i].season != 0 && r[i].episode != 0
        ensures !PairKey(r[j], r[i].indexerId, r[i].indexer, r[i].season, r[i].episode)
      {
        if j == |overrides| && mode == PairMode {
          assert !PairKey(overrides[i], indexerId, indexer, season, episode);
        }
      }
    }
  }

  /** Clearing works: with the invariant, setting a scene pair with a zero
      part makes the forward lookup of that native pair find no override. */
  lemma ClearRemovesOverride(overrides: seq<NumberingRecord>, indexerId: int, indexer: int,
                             season: int, episode: int, absolute: int,
                             sceneSeason: int, sceneEpisode: int, sceneAbsolute: int)
    requires UniquePairKeys(overrides)
    requires season != 0 && episode != 0 && (sceneSeason == 0 || sceneEpisode == 0)
    ensures FindScenePair(SetIntended(overrides, indexerId, indexer, season, episode, absolute,
                                      sceneSeason, sceneEpisode, sceneAbsolute),
                          indexerId, indexer, season, episode).None?
  {
    var r := SetIntended(overrides, indexerId, indexer, season, episode, absolute, sceneSeason, sceneEpisode, sceneAbsolute);
    var l := LocateIntended(overrides, indexerId, indexer, PairMode, season, episode, absolute);
    forall j | 0 <= j < |r| ensures !MapsPair(r[j], indexerId, indexer, season, episode) {
      if l.Found? && j != l.pos {
        assert r[j] == overrides[j];
        if j < l.pos {
          assert !PairKey(overrides[j], indexerId, indexer, season, episode);
        } else {
          assert !PairKey(overrides[j], overrides[l.pos].indexerId, overrides[l.pos].indexer,
                          overrides[l.pos].season, overrides[l.pos].episode);
        }
      }
    }
  }

  /** The code as written agrees with the intended write on a series with no
      override yet, and writes nothing on any other. */
  lemma AsWrittenOnlyFirstOverride(overrides: seq<NumberingRecord>, indexerId: int, indexer: int,
                                   season: int, episode: int, absolute: int,
                                   sceneSeason: int, sceneEpisode: int, sceneAbsolute: int)
    ensures (forall j :: 0 <= j < |overrides| ==> overrides[j].indexerId != indexerId) ==>
              SetAsWritten(overrides, indexerId, indexer, season, episode, absolute, sceneSeason, sceneEpisode, sceneAbsolute)
              == SetIntended(overrides, indexerId, indexer, season, episode, absolute, sceneSeason, sceneEpisode, sceneAbsolute)
    ensures (exists j :: 0 <= j < |overrides| && overrides[j].indexerId == indexerId) ==>
              SetAsWritten(overrides, indexerId, indexer, season, episode, absolute, sceneSeason, sceneEpisode, sceneAbsolute)
              == overrides
  {
  }

  /** The discrepancy on an input: series 100 gets S01E01 -> S01E13, then
      S01E02 -> S01E14. As written the second call raises KeyError and its
      mapping is lost; the intended write stores it. */
  lemma SecondOverrideIsLost()
    ensures var first := SetAsWritten([], 100, 1, 1, 1, 0, 1, 13, 0);
            && first == [NumberingRecord(100, 1, 1, 1, 0, 1, 13, 0)]
            && LocateAsWritten(first, 100) == IndexKeyMissing
            && FindScenePair(SetAsWritten(first, 100, 1, 1, 2, 0, 1, 14, 0), 100, 1, 1, 2).None?
            && FindScenePair(SetIntended(first, 100, 1, 1, 2, 0, 1, 14, 0), 100, 1, 1, 2) == Some((1, 14))
  {
    var first := SetAsWritten([], 100, 1, 1, 1, 0, 1, 13, 0);
    assert LocateAsWritten(first, 100) == IndexKeyMissing by {
      assert first[0].indexerId == 100;
    }
    SetThenLookupRoundTrip(first, 100, 1, 1, 2, 0, 1, 14, 0);
  }
}
