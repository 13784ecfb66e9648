/** xem_refresh as functions of the tables it changes: the refresh ledger
    with its one-day time-to-live, the probe that clears a series' scene
    fields when XEM does not know it, and the application of the fetched
    mapping entries with `scene_2` overriding `scene` for doubled episodes.

    The two HTTP replies are inputs: the probe as the list of series ids it
    returned (None when the request or its decoding failed), the fetch as its
    'result' string and its 'data' list (None when the request failed). An
    entry of 'data' is a JSON object of JSON objects. */
module Xem {
  import opened Seqs
  import opened Records
  import opened Lookup
  import opened Dumps

  /** MAX_REFRESH_AGE_SECS: one day. */
  const MaxRefreshAgeSecs: int := 86400

  /** The `xem_origin` the indexer configures; the key of an entry's native side. */
  const XemOrigin: string := "tvdb"

  type SubObject = map<string, int>
  type Entry = map<string, SubObject>

  datatype FetchReply = FetchReply(result: string, data: seq<Entry>)

  datatype XemReplies = XemReplies(probe: Option<seq<int>>, fetch: Option<FetchReply>)

  // ---------------------------------------------------------------------
  // The refresh ledger ('xem_refresh', read and written by indexer_id alone)
  // ---------------------------------------------------------------------

  /** The ledger record `get('xem_refresh', indexer_id)` returns. */
  function StampPosition(ledger: seq<RefreshStamp>, indexerId: int): (r: Option<nat>)
    ensures r.Some? ==> r.value < |ledger| && ledger[r.value].indexerId == indexerId
    ensures r.Some? ==> forall j :: 0 <= j < r.value ==> ledger[j].indexerId != indexerId
    ensures r.None? <==> forall j :: 0 <= j < |ledger| ==> ledger[j].indexerId != indexerId
  {
    FirstIndex(ledger, (s: RefreshStamp) => s.indexerId == indexerId)
  }

  function LastRefreshed(ledger: seq<RefreshStamp>, indexerId: int): Option<int>
  {
    match StampPosition(ledger, indexerId)
    case None => None
    case Some(k) => Some(ledger[k].lastRefreshed)
  }

  /** The ledger says a refresh is due: no record, or the record is more than
      a day old. */
  predicate RefreshDue(ledger: seq<RefreshStamp>, indexerId: int, now: int)
  {
    match LastRefreshed(ledger, indexerId)
    case None => true
    case Some(t) => now > t + MaxRefreshAgeSecs
  }

  /** "Mark refreshed": update the series' ledger record, or insert one. */
  function StampLedger(ledger: seq<RefreshStamp>, indexerId: int, indexer: int, now: int): (r: seq<RefreshStamp>)
    ensures LastRefreshed(r, indexerId) == Some(now)
    ensures forall other :: other != indexerId ==> LastRefreshed(r, other) == LastRefreshed(ledger, other)
    ensures |r| == |ledger| + (if LastRefreshed(ledger, indexerId).None? then 1 else 0)
  {
    match StampPosition(ledger, indexerId)
    case Some(k) =>
      var r := ledger[k := ledger[k].(lastRefreshed := now)];
      assert forall other :: other != indexerId ==> LastRefreshed(r, other) == LastRefreshed(ledger, other) by {
        forall other | other != indexerId
          ensures LastRefreshed(r, other) == LastRefreshed(ledger, other)
        {
          SameKeysSamePosition(r, ledger, other);
          var p := StampPosition(ledger, other);
          assert p.Some? ==> p.value != k;
        }
      }
      SameKeysSamePosition(r, ledger, indexerId);
      r
    case None =>
      var r := ledger + [RefreshStamp(indexerId, indexer, now)];
      assert forall j :: 0 <= j < |ledger| ==> r[j] == ledger[j];
      assert forall other :: other != indexerId ==> LastRefreshed(r, other) == LastRefreshed(ledger, other) by {
        forall other | other != indexerId
          ensures LastRefreshed(r, other) == LastRefreshed(ledger, other)
        {
          var p := StampPosition(ledger, other);
          var q := StampPosition(r, other);
          if p.Some? {
            assert r[p.value].indexerId == other;
            assert q.Some? && q.value == p.value;
          } else {
            assert q.None?;
          }
        }
      }
      assert r[|ledger|].indexerId == indexerId;
      assert StampPosition(r, indexerId) == Some(|ledger|);
      r
  }

  /** Ledgers whose records have the same ids find the same record. */
  lemma SameKeysSamePosition(a: seq<RefreshStamp>, b: seq<RefreshStamp>, indexerId: int)
    requires |a| == |b| && forall i :: 0 <= i < |a| ==> a[i].indexerId == b[i].indexerId
    ensures StampPosition(a, indexerId) == StampPosition(b, indexerId)
  {
    FirstIndexAgrees(a, (s: RefreshStamp) => s.indexerId == indexerId, b, (s: RefreshStamp) => s.indexerId == indexerId);
  }

  /** xem_refresh goes past its guard and its time-to-live test. */
  predicate RefreshRuns(ledger: seq<RefreshStamp>, indexerId: int, force: bool, now: int)
  {
    indexerId >= 1 && (RefreshDue(ledger, indexerId, now) || force)
  }

  /** The ledger after xem_refresh: stamped with `now` when the refresh runs,
      untouched otherwise; no other series' stamp ever changes. */
  function LedgerAfterRefresh(ledger: seq<RefreshStamp>, indexerId: int, indexer: int, force: bool, now: int)
    : (r: seq<RefreshStamp>)
    ensures RefreshRuns(ledger, indexerId, force, now) ==> LastRefreshed(r, indexerId) == Some(now)
    ensures !RefreshRuns(ledger, indexerId, force, now) ==> r == ledger
    ensures forall other :: other != indexerId ==> LastRefreshed(r, other) == LastRefreshed(ledger, other)
  {
    if RefreshRuns(ledger, indexerId, force, now) then StampLedger(ledger, indexerId, indexer, now) else ledger
  }

  /** After a refresh has run at `now`, an unforced refresh of the same series
      runs again only once more than a day has passed, and the refresh of
      any other series is as due as it was. */
  lemma RefreshOncePerDay(ledger: seq<RefreshStamp>, indexerId: int, indexer: int, force: bool, now: int,
                          later: int, other: int)
    requires RefreshRuns(ledger, indexerId, force, now)
    requires other != indexerId
    ensures RefreshRuns(LedgerAfterRefresh(ledger, indexerId, indexer, force, now), indexerId, false, later)
            <==> later > now + MaxRefreshAgeSecs
    ensures RefreshDue(LedgerAfterRefresh(ledger, indexerId, indexer, force, now), other, later)
            == RefreshDue(ledger, other, later)
  {
  }

  // ---------------------------------------------------------------------
  // Probe failure: clear the series' scene fields
  // ---------------------------------------------------------------------

  /** Every episode record of the partition gets scene fields 0, 0, 0. */
  function ClearPartition(episodes: seq<NumberingRecord>, indexerId: int): (r: seq<NumberingRecord>)
    ensures SameNatives(episodes, r)
    ensures forall i :: 0 <= i < |r| && r[i].indexerId == indexerId ==>
              r[i].sceneSeason == 0 && r[i].sceneEpisode == 0 && r[i].sceneAbsolute == 0
    ensures forall i :: 0 <= i < |r| && r[i].indexerId != indexerId ==> r[i] == episodes[i]
  {
    seq(|episodes|, i requires 0 <= i < |episodes| =>
      if episodes[i].indexerId == indexerId then Unmapped(episodes[i]) else episodes[i])
  }

  /** Once cleared, nothing of the series resolves through XEM any more: no
      forward lookup finds a mapping, both dumps are empty, and the reverse
      pair lookup finds nothing for any scene pair other than (0, 0). */
  lemma ClearedSeriesHasNoMappings(episodes: seq<NumberingRecord>, indexerId: int, indexer: int,
                                   season: int, episode: int, absolute: int, sceneSeason: int, sceneEpisode: int)
    requires sceneSeason != 0 || sceneEpisode != 0
    ensures var r := ClearPartition(episodes, indexerId);
            && FindScenePair(r, indexerId, indexer, season, episode).None?
            && FindSceneAbsolute(r, indexerId, indexer, absolute).None?
            && FindNativePair(r, indexerId, indexer, sceneSeason, sceneEpisode).None?
            && PairDump(r, indexerId, indexer) == map[]
            && AbsoluteDump(r, indexerId, indexer) == map[]
  {
    var r := ClearPartition(episodes, indexerId);
    forall key: (int, int) ensures key !in PairDump(r, indexerId, indexer) {
      PairDumpContents(r, indexerId, indexer, key);
    }
    forall key: int ensures key !in AbsoluteDump(r, indexerId, indexer) {
      AbsoluteDumpContents(r, indexerId, indexer, key);
    }
  }

  // ---------------------------------------------------------------------
  // Applying the fetched entries
  // ---------------------------------------------------------------------

  /** A 'scene' or 'scene_2' object has all three keys the code reads. */
  predicate WellFormed(sub: SubObject)
  {
    "season" in sub && "episode" in sub && "absolute" in sub
  }

  /** The entry has an origin object with a season and an episode. */
  predicate HasOrigin(entry: Entry)
  {
    XemOrigin in entry && "season" in entry[XemOrigin] && "episode" in entry[XemOrigin]
  }

  /** The episode record an entry's origin side names: the first record of the
      partition (of any indexer) with that season and episode. None when the
      origin object or one of its keys is missing or nothing matches: the
      exceptions the source turns into `continue`. */
  function OriginPosition(episodes: seq<NumberingRecord>, indexerId: int, entry: Entry): (r: Option<nat>)
    ensures r.Some? ==> r.value < |episodes| && episodes[r.value].indexerId == indexerId
    ensures r.Some? ==> HasOrigin(entry)
                        && IsEpisode(episodes[r.value], indexerId, entry[XemOrigin]["season"], entry[XemOrigin]["episode"])
                        && forall j :: 0 <= j < r.value ==>
                             !IsEpisode(episodes[j], indexerId, entry[XemOrigin]["season"], entry[XemOrigin]["episode"])
    ensures r.None? <==> !HasOrigin(entry)
                         || forall j :: 0 <= j < |episodes| ==>
                              !IsEpisode(episodes[j], indexerId, entry[XemOrigin]["season"], entry[XemOrigin]["episode"])
  {
    if XemOrigin in entry && "season" in entry[XemOrigin] && "episode" in entry[XemOrigin] then
      var origin := entry[XemOrigin];
      FirstIndex(episodes, (x: NumberingRecord) =>
        x.indexerId == indexerId && x.season == origin["season"] && x.episode == origin["episode"])
    else None
  }

  /** The record's three scene fields are the sub-object's numbers. */
  predicate Carries(x: NumberingRecord, sub: SubObject)
  {
    WellFormed(sub)
    && x.sceneSeason == sub["season"] && x.sceneEpisode == sub["episode"] && x.sceneAbsolute == sub["absolute"]
  }

  /** The record with its scene fields copied from a sub-object, or None for
      the KeyError a missing key raises. */
  function Overlay(x: NumberingRecord, sub: SubObject): (r: Option<NumberingRecord>)
    ensures r.Some? <==> WellFormed(sub)
    ensures r.Some? ==> Unmapped(r.value) == Unmapped(x) && Carries(r.value, sub)
  {
    if WellFormed(sub) then
      Some(x.(sceneSeason := sub["season"], sceneEpisode := sub["episode"], sceneAbsolute := sub["absolute"]))
    else None
  }

  datatype EntryEffect = Skip | Abort | Write(pos: nat, rec: NumberingRecord)

  /** What one entry does: skip it, abort the whole loop (a KeyError in
      'scene' or 'scene_2' reaches the outer handler), or write one record
      with 'scene' applied and then 'scene_2' applied over it. */
  function ApplyEntry(episodes: seq<NumberingRecord>, indexerId: int, entry: Entry): (e: EntryEffect)
    ensures e.Write? ==> e.pos < |episodes| && episodes[e.pos].indexerId == indexerId
                         && Unmapped(e.rec) == Unmapped(episodes[e.pos])
    // skipped exactly when no episode matches the origin side
    ensures e.Skip? <==> OriginPosition(episodes, indexerId, entry).None?
    // aborted exactly when a matched entry has a malformed sub-object
    ensures e.Abort? <==> OriginPosition(episodes, indexerId, entry).Some?
                          && (("scene" in entry && !WellFormed(entry["scene"]))
                              || ("scene_2" in entry && !WellFormed(entry["scene_2"])))
    // otherwise the matched record is written, with 'scene_2' over 'scene'
    ensures e.Write? ==> e.pos == OriginPosition(episodes, indexerId, entry).value
    ensures e.Write? && "scene_2" in entry ==> Carries(e.rec, entry["scene_2"])
    ensures e.Write? && "scene" in entry && "scene_2" !in entry ==> Carries(e.rec, entry["scene"])
    ensures e.Write? && "scene" !in entry && "scene_2" !in entry ==> e.rec == episodes[e.pos]
  {
    match OriginPosition(episodes, indexerId, entry)
    case None => Skip
    case Some(k) =>
      var afterScene := if "scene" in entry then Overlay(episodes[k], entry["scene"]) else Some(episodes[k]);
      var afterDouble :=
        if afterScene.Some? && "scene_2" in entry then Overlay(afterScene.value, entry["scene_2"]) else afterScene;
      match afterDouble
      case None => Abort
      case Some(x) => Write(k, x)
  }

  /** The loop over 'data' in order, each entry seeing the writes of the
      earlier ones, up to the first entry that aborts. */
  function ApplyEntries(episodes: seq<NumberingRecord>, indexerId: int, data: seq<Entry>): (r: seq<NumberingRecord>)
    ensures SameNatives(episodes, r)
    ensures forall i :: 0 <= i < |r| && episodes[i].indexerId != indexerId ==> r[i] == episodes[i]
    decreases |data|
  {
    if data == [] then episodes
    else match ApplyEntry(episodes, indexerId, data[0])
      case Abort => episodes
      case Skip => ApplyEntries(episodes, indexerId, data[1..])
      case Write(k, x) => ApplyEntries(episodes[k := x], indexerId, data[1..])
  }

  /** One well-formed entry that matches an episode writes its numbers into
      that record ('scene_2' over 'scene') and changes nothing else. */
  lemma SingleEntryReachesItsRecord(episodes: seq<NumberingRecord>, indexerId: int, entry: Entry)
    requires OriginPosition(episodes, indexerId, entry).Some?
    requires "scene" in entry ==> WellFormed(entry["scene"])
    requires "scene_2" in entry ==> WellFormed(entry["scene_2"])
    ensures var k := OriginPosition(episodes, indexerId, entry).value;
            var r := ApplyEntries(episodes, indexerId, [entry]);
            && |r| == |episodes| && Unmapped(r[k]) == Unmapped(episodes[k])
            && ("scene_2" in entry ==> Carries(r[k], entry["scene_2"]))
            && ("scene" in entry && "scene_2" !in entry ==> Carries(r[k], entry["scene"]))
            && forall i :: 0 <= i < |r| && i != k ==> r[i] == episodes[i]
  {
    var e := ApplyEntry(episodes, indexerId, entry);
    assert e.Write?;
    assert [entry][1..] == [];
  }

  /** A doubled episode: when 'scene_2' is well formed (and 'scene', if
      present, is too), the episode ends up with the numbers of 'scene_2'. */
  lemma DoubledEpisodeTakesSceneTwo(episodes: seq<NumberingRecord>, indexerId: int, entry: Entry)
    requires OriginPosition(episodes, indexerId, entry).Some?
    requires "scene" in entry ==> WellFormed(entry["scene"])
    requires "scene_2" in entry && WellFormed(entry["scene_2"])
    ensures var k := OriginPosition(episodes, indexerId, entry).value;
            var s2 := entry["scene_2"];
            ApplyEntry(episodes, indexerId, entry)
            == Write(k, episodes[k].(sceneSeason := s2["season"], sceneEpisode := s2["episode"], sceneAbsolute := s2["absolute"]))
  {
  }

  /** A malformed 'scene' or 'scene_2' of a matched entry stops the loop:
      neither this entry nor any later one is applied. */
  lemma MalformedEntryStopsTheLoop(episodes: seq<NumberingRecord>, indexerId: int, data: seq<Entry>)
    requires |data| > 0 && OriginPosition(episodes, indexerId, data[0]).Some?
    requires ("scene" in data[0] && !WellFormed(data[0]["scene"]))
             || ("scene_2" in data[0] && !WellFormed(data[0]["scene_2"]))
    ensures ApplyEntries(episodes, indexerId, data) == episodes
  {
  }

  /** Which records an entry targets, and whether it aborts, depends only on
      the native fields; the value written does not depend on the old scene
      fields unless the entry has neither 'scene' nor 'scene_2'. */
  lemma ApplyEntryReadsNativesOnly(a: seq<NumberingRecord>, b: seq<NumberingRecord>, indexerId: int, entry: Entry)
    requires SameNatives(a, b)
    ensures var ea := ApplyEntry(a, indexerId, entry);
            var eb := ApplyEntry(b, indexerId, entry);
            && ea.Skip? == eb.Skip? && ea.Abort? == eb.Abort?
            && (ea.Write? ==> ea.pos == eb.pos && (ea.rec == eb.rec || (ea.rec == a[ea.pos] && eb.rec == b[eb.pos])))
  {
    if XemOrigin in entry && "season" in entry[XemOrigin] && "episode" in entry[XemOrigin] {
      var origin := entry[XemOrigin];
      forall i | 0 <= i < |a|
        ensures a[i].indexerId == b[i].indexerId && a[i].season == b[i].season && a[i].episode == b[i].episode
      {
        assert Unmapped(a[i]) == Unmapped(b[i]);
      }
      FirstIndexAgrees(a, (x: NumberingRecord) =>
                         x.indexerId == indexerId && x.season == origin["season"] && x.episode == origin["episode"],
                       b, (x: NumberingRecord) =>
                         x.indexerId == indexerId && x.season == origin["season"] && x.episode == origin["episode"]);
      match OriginPosition(a, indexerId, entry)
      case None =>
      case Some(k) =>
        assert Unmapped(a[k]) == Unmapped(b[k]);
    }
  }

  /** Two tables with the same native fields, run through the same entries,
      end up equal at every record that some entry wrote; every other record
      keeps its own old value in both. */
  lemma {:induction false} ApplyEntriesAgree(a: seq<NumberingRecord>, b: seq<NumberingRecord>, indexerId: int, data: seq<Entry>)
    requires SameNatives(a, b)
    ensures var ra := ApplyEntries(a, indexerId, data);
            var rb := ApplyEntries(b, indexerId, data);
            forall i :: 0 <= i < |a| ==> (ra[i] == a[i] && rb[i] == b[i]) || ra[i] == rb[i]
    decreases |data|
  {
    if data != [] {
      ApplyEntryReadsNativesOnly(a, b, indexerId, data[0]);
      match ApplyEntry(a, indexerId, data[0])
      case Abort =>
      case Skip =>
        ApplyEntriesAgree(a, b, indexerId, data[1..]);
      case Write(k, x) =>
        var y := ApplyEntry(b, indexerId, data[0]).rec;
        var a' := a[k := x];
        var b' := b[k := y];
        assert SameNatives(a', b') by {
          forall i | 0 <= i < |a'| ensures Unmapped(a'[i]) == Unmapped(b'[i]) {
            if i == k {
              assert Unmapped(x) == Unmapped(a[k]) && Unmapped(y) == Unmapped(b[k]);
            }
          }
        }
        ApplyEntriesAgree(a', b', indexerId, data[1..]);
    }
  }

  /** Applying the same reply twice gives what applying it once gives: a
      repeated or concurrent refresh is harmless. */
  lemma ApplyEntriesIdempotent(episodes: seq<NumberingRecord>, indexerId: int, data: seq<Entry>)
    ensures var once := ApplyEntries(episodes, indexerId, data);
            ApplyEntries(once, indexerId, data) == once
  {
    var once := ApplyEntries(episodes, indexerId, data);
    var twice := ApplyEntries(once, indexerId, data);
    ApplyEntriesAgree(once, episodes, indexerId, data);
    assert |twice| == |once|;
    forall i | 0 <= i < |once| ensures twice[i] == once[i] {
    }
  }

  // ---------------------------------------------------------------------
  // The whole refresh
  // ---------------------------------------------------------------------

  /** The probe failed, or XEM does not list the series. */
  predicate ProbeMisses(xem: XemReplies, indexerId: int)
  {
    xem.probe.None? || indexerId !in xem.probe.value
  }

  /** The fetch came back and its 'result' contains "success". */
  predicate FetchSucceeded(xem: XemReplies)
  {
    xem.fetch.Some? && HasSubstring(xem.fetch.value.result, "success")
  }

  /** The episode table after the probe, the fetch and the entries. */
  function RefreshedEpisodes(episodes: seq<NumberingRecord>, indexerId: int, xem: XemReplies): (r: seq<NumberingRecord>)
    // only the scene fields of the series' own records can change
    ensures SameNatives(episodes, r)
    ensures forall i :: 0 <= i < |r| && episodes[i].indexerId != indexerId ==> r[i] == episodes[i]
    // XEM does not know the series: all its mappings are gone
    ensures ProbeMisses(xem, indexerId) ==>
              forall i :: 0 <= i < |r| && r[i].indexerId == indexerId ==>
                r[i].sceneSeason == 0 && r[i].sceneEpisode == 0 && r[i].sceneAbsolute == 0
    // a failed fetch is a soft failure: nothing changes
    ensures !ProbeMisses(xem, indexerId) && !FetchSucceeded(xem) ==> r == episodes
    // a successful fetch applies its entries in order
    ensures !ProbeMisses(xem, indexerId) && FetchSucceeded(xem) ==> r == ApplyEntries(episodes, indexerId, xem.fetch.value.data)
  {
    if ProbeMisses(xem, indexerId) then ClearPartition(episodes, indexerId)
    else if !FetchSucceeded(xem) then episodes
    else ApplyEntries(episodes, indexerId, xem.fetch.value.data)
  }

  /** The episode table after xem_refresh: untouched unless the refresh runs;
      only the scene fields of the series' own records can change. */
  function EpisodesAfterRefresh(episodes: seq<NumberingRecord>, ledger: seq<RefreshStamp>, indexerId: int,
                                force: bool, now: int, xem: XemReplies)
    : (r: seq<NumberingRecord>)
    ensures !RefreshRuns(ledger, indexerId, force, now) ==> r == episodes
    ensures SameNatives(episodes, r)
    ensures forall i :: 0 <= i < |r| && episodes[i].indexerId != indexerId ==> r[i] == episodes[i]
  {
    if RefreshRuns(ledger, indexerId, force, now) then RefreshedEpisodes(episodes, indexerId, xem) else episodes
  }
}
