# Scene numbering for SickRage

A model of `sickrage/core/scene_numbering.py`, with proofs about it. The module maps a TV series' numbering on its indexer (season and episode, or an absolute episode number) to the numbering that scene release groups use, and back. It has three sources, tried in order:

1. a local override, from the `scene_numbering` table;
2. the XEM mapping cached in the scene fields of the `tv_episodes` table;
3. identity, when neither source has a mapping.

The XEM cache is refreshed from thexem.de, through the `xem_refresh` ledger table. Unforced refreshes run at most once a day per series id; a forced refresh skips that test. In a scene field, 0 means "unmapped".

The model is an in-memory record store. Each table is a sequence of records in store order. The partition that `get_many(table, indexer_id)` returns is the subsequence of records with that series id. The pieces:

- `Records` holds the record types. One eight-field record type serves both `scene_numbering` and `tv_episodes`; a second type serves the ledger.
- `Lookup` holds the list-comprehension filters of the `find_*` helpers and of the reverse lookups, each followed by "take the first element". It also holds `get_absolute_number_from_season_and_episode`.
- `Resolver` holds the four public resolvers as functions of the two tables.
- `Dumps` holds the four whole-series dictionaries, both as folds and as the loops that build them.
- `Xem` holds `xem_refresh` as functions of the tables it changes: the ledger and its one-day time-to-live, the probe-failure clear, and the application of fetched entries.
- `Overrides` holds `set_scene_numbering` on the override table, both as written and as evidently intended.
- `Store` holds the class `SceneNumberingStore`. It has the three tables as fields, plus a count of the episode-cache flushes the series was asked for. Its methods are the public operations. Each method is proved to compute the functions above, both for its answer and for its new tables.

The clock is the parameter `now`. The two HTTP replies of the refresh are the parameter `xem`:

- the probe is the list of series ids it returned, or None when it failed;
- the fetch is its `result` string and its `data` list, or None when it failed.

The show-list lookup is a parameter too: `show` is None when the series is not in the list and `Some(isScene)` when it is; `showFound` plays the same role for the setter.

Two behaviours of the code to note:

- The reverse lookups `get_indexer_numbering` and `get_indexer_absolute_numbering` read the override table before XEM (`scene_numbering.py:148-158`, `:172-187`). They are not limited to the episode table. `Resolver.OverrideIsReadBothWays` shows this on the override S01E01 -> S01E13.
- The reverse lookups have no "series is not scene-numbered" short-circuit; only the two forward resolvers have one (`:49-51`, `:103-105`).

## Model

| member | source | states |
|---|---|---|
| Seqs.FirstIndex | sickrage/core/scene_numbering.py:74-82 | the position that "filter, then take `[0]`" picks: the first element satisfying the filter, and the only position that is first; None exactly when no element does |
| Seqs.FirstIndexAgrees | sickrage/core/scene_numbering.py:534-537 | two filters that agree element by element pick the same record |
| Seqs.CountWhere | sickrage/core/scene_numbering.py:573-577 | the length of the filtered list is at most the table's length, and is 0 exactly when nothing matches |
| Seqs.CountIsOneIffOnlyMatch | sickrage/core/scene_numbering.py:577 | given a match at position k, `len(dbData) == 1` holds exactly when no other record matches |
| Seqs.HasSubstringAt | sickrage/core/scene_numbering.py:524 | Python's `'success' in result` holds whenever "success" occurs at some offset of the result string |
| Seqs.HasSubstring | sickrage/core/scene_numbering.py:524 | Python's substring test; no contract of its own, its meaning is stated by `Seqs.HasSubstringAt` and `Seqs.HasSubstringOnlyAt` (it holds exactly when the substring occurs at some offset) |
| Seqs.HasSubstringOnlyAt | sickrage/core/scene_numbering.py:524 | conversely, `'success' in result` holds only when "success" occurs at some offset |
| Lookup.FindScenePair | sickrage/core/scene_numbering.py:64-82 | find_scene_numbering / find_xem_numbering: None exactly when no record of the series and indexer maps (season, episode) with both scene parts non-zero; otherwise the scene pair of the first such record, never zero |
| Lookup.FindSceneAbsolute | sickrage/core/scene_numbering.py:118-134 | find_scene_absolute_numbering / find_xem_absolute_numbering: None exactly when no record maps the absolute number to a non-zero scene number; otherwise the first one's, never 0 |
| Lookup.FindNativePair | sickrage/core/scene_numbering.py:148-154 | the reverse pair filter: None exactly when no record carries the scene pair; otherwise the native pair of the first record that does; no non-zero test |
| Lookup.FindNativeAbsolute | sickrage/core/scene_numbering.py:172-183 | the reverse absolute filter, with the scene season as an extra condition when one is given: None exactly when nothing matches; otherwise the first match's native absolute number |
| Lookup.ReverseUndoesForward | sickrage/core/scene_numbering.py:137-158 | when only the native episode (season, episode) carries the scene pair it maps to, the reverse lookup of that scene pair gives back (season, episode) |
| Lookup.ReverseAbsoluteUndoesForward | sickrage/core/scene_numbering.py:161-187 | the same round trip for absolute numbers, with no scene-season filter |
| Lookup.AbsoluteNumberOf | sickrage/core/scene_numbering.py:560-585 | an answer only when season and episode are both truthy; the answer is the absolute number of a record of the series with that season and episode |
| Lookup.AbsoluteNumberOnlyWhenUnique | sickrage/core/scene_numbering.py:572-578 | for a matching record k, the answer is k's absolute number exactly when no other record of the series has that season and episode |
| Resolver.ScenePair | sickrage/core/scene_numbering.py:33-61 | get_scene_numbering: a missing input or a series marked not scene-numbered gives the input back; otherwise the scene pair of the first matching override; else, when `fallback_to_xem` is set, that of the first matching XEM record; else the input. Any changed answer is a non-zero pair |
| Resolver.SceneAbsolute | sickrage/core/scene_numbering.py:85-115 | get_scene_absolute_numbering: a missing input or a series marked not scene-numbered gives the input back; otherwise the first matching override's scene absolute number; else, with `fallback_to_xem`, the first matching XEM record's; else the input. A changed answer is non-zero |
| Resolver.IndexerPair | sickrage/core/scene_numbering.py:137-158 | get_indexer_numbering: a missing input gives the input back; otherwise the native pair of the first override carrying the scene pair; else, with `fallback_to_xem`, that of the first XEM record carrying it; else the input |
| Resolver.IndexerAbsolute | sickrage/core/scene_numbering.py:161-187 | get_indexer_absolute_numbering: a missing input gives the input back; otherwise the native absolute number of the first override carrying the scene number (and scene season, when given); else, with `fallback_to_xem`, that of the first such XEM record; else the input |
| Resolver.OverrideWinsOverXem | sickrage/core/scene_numbering.py:53-55 | a matching override is the answer, and the answer does not depend on what the XEM table holds |
| Resolver.NoFallbackIgnoresXem | sickrage/core/scene_numbering.py:56-61 | without `fallback_to_xem` the answer does not depend on the XEM table |
| Resolver.UnmappedEpisodeIsIdentity | sickrage/core/scene_numbering.py:46-61 | series 100, S01E01, no override and no XEM mapping: (1, 1) comes back |
| Resolver.OverrideIsReadBothWays | sickrage/core/scene_numbering.py:148-154 | the override S01E01 -> S01E13 resolves forward to (1, 13) and, through the override table, backward to (1, 1) |
| Dumps.PairDump | sickrage/core/scene_numbering.py:366-388 | the pair dictionary never holds the value (0, 0) |
| Dumps.AbsoluteDump | sickrage/core/scene_numbering.py:418-438 | the absolute dictionary never holds the value 0 |
| Dumps.PairDumpContents | sickrage/core/scene_numbering.py:379-386 | a native pair is a key exactly when some record of the series and indexer has it and a scene pair that is not (0, 0); the value is that of the last such record |
| Dumps.AbsoluteDumpContents | sickrage/core/scene_numbering.py:431-436 | an absolute number is a key exactly when some record of the series and indexer has it and a non-zero scene absolute number; the value is the last such record's |
| Dumps.PairDumpAgreesWithLookup | sickrage/core/scene_numbering.py:74-82 | for a native pair with one fully mapped record and no other dumped record, the dump and the forward lookup give the same scene pair |
| Dumps.HalfMappedPairOnlyInDump | sickrage/core/scene_numbering.py:384 | a record with scene pair (0, 5) is in the dump but not found by the forward lookup |
| Dumps.CollectPairDump | sickrage/core/scene_numbering.py:372-388 | the loop of the pair dumps: an empty dictionary without a series id, otherwise the pair dump of the table |
| Dumps.CollectAbsoluteDump | sickrage/core/scene_numbering.py:424-438 | the loop of the absolute dumps: an empty dictionary without a series id, otherwise the absolute dump of the table |
| Xem.StampPosition | sickrage/core/scene_numbering.py:481 | the ledger record read by series id alone: the first record with that id; None exactly when there is none |
| Xem.StampLedger | sickrage/core/scene_numbering.py:491-502 | after "mark refreshed", the series' last refresh is `now`; every other series' last refresh is unchanged; the ledger grows by one record exactly when the series had none |
| Xem.SameKeysSamePosition | sickrage/core/scene_numbering.py:493 | ledgers whose records carry the same series ids find the same record for every id |
| Xem.RefreshOncePerDay | sickrage/core/scene_numbering.py:472-502 | after a refresh at `now`, an unforced refresh of the series runs again exactly when more than 86400 seconds have passed; other series are as due as before |
| Xem.RefreshDue | sickrage/core/scene_numbering.py:480-485 | a series is due when it has no refresh stamp or its stamp is more than 86400 seconds old; no contract of its own, its behaviour is stated by `Xem.RefreshOncePerDay` |
| Xem.RefreshRuns | sickrage/core/scene_numbering.py:472-487 | a refresh runs only for a series id of at least 1 that is due or forced; no contract of its own, used by the contracts of `Xem.LedgerAfterRefresh` and `Xem.EpisodesAfterRefresh` |
| Xem.LedgerAfterRefresh | sickrage/core/scene_numbering.py:487-502 | when the refresh runs the series' last refresh becomes `now`, otherwise the ledger is unchanged; no other series' last refresh ever changes |
| Xem.ClearPartition | sickrage/core/scene_numbering.py:512-516 | the probe-failure clear: native fields unchanged, every record of the series (of any indexer) has all three scene fields 0, other series untouched |
| Xem.ClearedSeriesHasNoMappings | sickrage/core/scene_numbering.py:512-516 | after the clear, no forward lookup of the series finds a mapping, no reverse pair lookup other than (0, 0) finds a record, and both dumps are empty |
| Xem.OriginPosition | sickrage/core/scene_numbering.py:532-539 | the episode an entry names: when the origin object has season and episode, the first record of the series (of any indexer) with that season and episode; None exactly when a key is missing or no record matches |
| Xem.Overlay | sickrage/core/scene_numbering.py:541-548 | copying a sub-object succeeds exactly when it has season, episode and absolute; the copy keeps the native fields and carries the sub-object's three numbers |
| Xem.ApplyEntry | sickrage/core/scene_numbering.py:531-550 | an entry is skipped exactly when no episode matches its origin side; it aborts exactly when it matches and `scene` or `scene_2` lacks a key; otherwise the matched record is written with the numbers of `scene_2` if present, else those of `scene`, else unchanged; only scene fields change |
| Xem.SingleEntryReachesItsRecord | sickrage/core/scene_numbering.py:531-550 | a well-formed matching entry writes its numbers (`scene_2` over `scene`) into the matched record and changes no other record |
| Xem.ApplyEntries | sickrage/core/scene_numbering.py:531-552 | applying the entries in order keeps every native field and every other series' records |
| Xem.DoubledEpisodeTakesSceneTwo | sickrage/core/scene_numbering.py:545-548 | for a doubled episode the record ends up with all three numbers of `scene_2` |
| Xem.MalformedEntryStopsTheLoop | sickrage/core/scene_numbering.py:552 | a matched entry with a malformed `scene` or `scene_2` stops the loop: it and every later entry are not applied |
| Xem.ApplyEntryReadsNativesOnly | sickrage/core/scene_numbering.py:533-548 | which record an entry targets, and whether it aborts, depends only on native fields |
| Xem.ApplyEntriesAgree | sickrage/core/scene_numbering.py:531-550 | two tables with the same native fields, run through the same entries, agree on every record some entry wrote |
| Xem.ApplyEntriesIdempotent | sickrage/core/scene_numbering.py:531-550 | applying a reply twice gives what applying it once gives |
| Xem.RefreshedEpisodes | sickrage/core/scene_numbering.py:504-550 | native fields and other series are kept; a failed probe, or one not listing the series, zeroes the series' scene fields; a fetch without "success" changes nothing; a successful fetch applies its entries in order, as `ApplyEntries` |
| Xem.ProbeMisses | sickrage/core/scene_numbering.py:508-511 | the probe failed or does not list the series id; no contract of its own, its effect (the series' scene fields zeroed) is stated by `Xem.RefreshedEpisodes` |
| Xem.FetchSucceeded | sickrage/core/scene_numbering.py:522-525 | the fetch replied and its result contains "success"; no contract of its own, its effect is stated by `Xem.RefreshedEpisodes` |
| Xem.EpisodesAfterRefresh | sickrage/core/scene_numbering.py:487-550 | a refresh that does not run leaves the episodes unchanged; whatever happens, native fields and the records of other series are kept |
| Overrides.ModeOf | sickrage/core/scene_numbering.py:202-225 | pair mode exactly when season and episode are both non-zero; absolute mode exactly when pair mode is not chosen and the absolute number is non-zero |
| Overrides.LocateAsWritten | sickrage/core/scene_numbering.py:203-206 | the lookup on `'index'` raises exactly when the series already has an override, and never finds a record |
| Overrides.LocateIntended | sickrage/core/scene_numbering.py:203-206 | the lookup on `'indexer'`: the first override with the mode's key, or Absent exactly when none has it |
| Overrides.Upsert | sickrage/core/scene_numbering.py:208-244 | a found override gets the scene pair (pair mode) or the scene absolute number (absolute mode) and nothing else changes; otherwise a record with all eight fields is appended; no mode or a raised lookup writes nothing |
| Overrides.SetThenLookupRoundTrip | sickrage/core/scene_numbering.py:202-223 | after setting a non-zero scene pair for a native pair, the forward lookup returns it |
| Overrides.SetAbsoluteThenLookupRoundTrip | sickrage/core/scene_numbering.py:225-244 | after setting a non-zero scene absolute number in absolute mode, the forward absolute lookup returns it |
| Overrides.SetKeepsPairKeysUnique | sickrage/core/scene_numbering.py:202-223 | the write keeps at most one override per series, indexer and native pair |
| Overrides.ClearRemovesOverride | sickrage/core/scene_numbering.py:190-223 | clearing with the zero defaults of the scene arguments: with at most one override per native pair, setting a scene pair with a zero part makes the forward lookup find no override for that native pair |
| Overrides.AsWrittenOnlyFirstOverride | sickrage/core/scene_numbering.py:202-235 | the code as written does the intended write on a series with no override yet, and writes nothing on any other |
| Overrides.SetAsWritten | sickrage/core/scene_numbering.py:190-244 | set_scene_numbering as written never updates an override in place: it appends the new record or leaves the table as it was; `Overrides.AsWrittenOnlyFirstOverride` and `Overrides.SecondOverrideIsLost` say when |
| Overrides.SetIntended | sickrage/core/scene_numbering.py:190-244 | the corrected write adds at most one override and leaves other series' overrides untouched; the round trips are `Overrides.SetThenLookupRoundTrip` and `Overrides.SetAbsoluteThenLookupRoundTrip`, with `Overrides.SetKeepsPairKeysUnique` and `Overrides.ClearRemovesOverride` |
| Overrides.SecondOverrideIsLost | sickrage/core/scene_numbering.py:202-206 | series 100: S01E01 -> S01E13 is stored, then S01E02 -> S01E14 is lost as written and stored as intended |
| Store.SceneNumberingStore.XemRefresh | sickrage/core/scene_numbering.py:466-557 | the new ledger and episode table are the refresh functions of the old ones; the overrides are untouched |
| Store.SceneNumberingStore.ClearEpisodes | sickrage/core/scene_numbering.py:513-515 | the loop zeroing the series' scene fields computes the clear |
| Store.SceneNumberingStore.ApplyXemEntries | sickrage/core/scene_numbering.py:531-550 | the loop over the entries computes the application, stopping at a malformed sub-object |
| Store.SceneNumberingStore.GetSceneNumbering | sickrage/core/scene_numbering.py:33-61 | the answer is the forward pair resolver over the refreshed tables; the refresh runs exactly when the XEM step is reached |
| Store.SceneNumberingStore.GetSceneAbsoluteNumbering | sickrage/core/scene_numbering.py:85-115 | the same for absolute numbers |
| Store.SceneNumberingStore.GetIndexerNumbering | sickrage/core/scene_numbering.py:137-158 | the answer is the reverse pair resolver; the refresh of get_indexer_numbering_for_xem runs exactly when no override matches and fallback is set |
| Store.SceneNumberingStore.GetIndexerAbsoluteNumbering | sickrage/core/scene_numbering.py:161-187 | the same for absolute numbers, with the optional scene season |
| Store.SceneNumberingStore.GetSceneNumberingForShow | sickrage/core/scene_numbering.py:366-388 | the pair dump of the override table, or empty without a series id |
| Store.SceneNumberingStore.GetSceneAbsoluteNumberingForShow | sickrage/core/scene_numbering.py:418-438 | the absolute dump of the override table, or empty without a series id |
| Store.SceneNumberingStore.GetXemNumberingForShow | sickrage/core/scene_numbering.py:391-415 | refreshes, then the pair dump of the refreshed episode table |
| Store.SceneNumberingStore.GetXemAbsoluteNumberingForShow | sickrage/core/scene_numbering.py:441-463 | refreshes, then the absolute dump of the refreshed episode table |
| Store.SceneNumberingStore.SetSceneNumbering | sickrage/core/scene_numbering.py:190-248 | nothing without a series id; otherwise the override table becomes the update-or-insert of `Overrides.SetIntended` (the lookup on `'indexer'`), keeping at most one override per native pair; the flush raises when the series is not in the show list; the episode cache is flushed exactly when the call returns normally |

## Left out

- The HTTP requests to thexem.de, their JSON decoding and the web session. The decoded replies are the input `xem`. A JSON value that is not an integer where the code reads a number is not modelled.
- The wall clock. The three `time.mktime` reads in one refresh are taken as the single value `now`.
- Logging, `traceback.format_exc` and the message formatting.
- The CodernityDB database. Its `get`, `get_many`, `insert` and `update` act on in-memory sequences, and `RecordNotFound` becomes None.
- `IndexerApi`. Only the configured `xem_origin` is kept, as the constant "tvdb"; `.name` appears only in log lines.
- `findCertainShow` and the show list. They are the inputs `show` and `showFound`.
- `flushEpisodes`. It is the counter `flushes`.
- `try_int` and the `int(...)` conversions. Records hold integers already, and ids are integers or None.
- The `None` guards inside `find_scene_numbering`, `find_xem_numbering` and their absolute variants (`:68-69`, `:122-123`, `:261-262`, `:289-290`). The resolvers call these helpers only with every argument set, so the guards cannot fire there; the helpers are modelled on integers.
- Store.SceneNumberingStore.XemRefresh: takes the series id as an integer. The falsy test of `:472` coincides with `< 1` on integers.
- Xem.RefreshedEpisodes: a fetch reply without a 'data' list raises inside the outer handler and applies nothing. The model gives such a reply an empty list, which has the same effect.
- Store.SceneNumberingStore.SetSceneNumbering: looks the override up on `'indexer'`, as the code evidently intends (see Findings). The lookup on `'index'` as written, and the KeyError it raises, are modelled by `Overrides.LocateAsWritten` and `Overrides.SetAsWritten`.
- Overrides.ClearRemovesOverride: the setter's scene arguments are integers, so the model clears with zeros, the defaults at `:190-191`. The docstring at `:194` says to clear by passing `sceneSeason` and `sceneEpisode` as None; that path is not modelled. Read from the code, a None pair does not clear: a stored None passes the `!= 0` tests of `:78-79`, `find_scene_numbering` returns the pair `(try_int(None), try_int(None))` (`:82`), and `if result:` (`:54`) holds for any 2-tuple, so `get_scene_numbering` returns that pair instead of falling through to XEM or to the input. The dump's `(a or b) == 0` test (`:384`) does skip such a record.
- Concurrent refreshes and writes. The methods run one at a time.

## Findings

| source | as written | input that shows it | evidently intended | confidence | as-written member | corrected member |
|---|---|---|---|---|---|---|
| sickrage/core/scene_numbering.py:202-235 | the override lookup filters on `x['doc']['index']`, a key no override has (inserts write `'indexer'`, `:215`, `:236`), so it raises KeyError whenever the series already has an override | series 100 on indexer 1: set S01E01 -> S01E13, then S01E02 -> S01E14; the second call raises and S01E02 stays unmapped | filter on `'indexer'`: update the matching override or insert a new one | not executed | Overrides.SecondOverrideIsLost | Overrides.SetThenLookupRoundTrip |
