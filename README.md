# Zoomer: a verified model of the URL matcher and the zoom-record store

Zoomer is a browser extension that remembers a zoom level per URL. This project models its
core in Dafny and proves properties of that model. The core has three parts.

- **URL normaliser and canonicaliser** (`url-utils.js`, module `UrlUtils`, pure functions).
  `parseURL` lower-cases the host and normalises the path. `normalizePath` adds a leading `/`
  and strips one trailing `/`. `generateComponentBitmask` turns the user's settings into a
  mask: PATH = 1, QUERY = 2, FRAGMENT = 4. `createStandardizedURL` concatenates the host with
  the selected components. `generateSpecificityLevels` lists the URL's canonical strings: under
  mask 7 when the query or the fragment is non-empty (even for the root path); under 3 when the
  query is non-empty and the path is not "/"; under 5 likewise for the fragment; under 1 when
  the path is not "/"; and always under 0. The list is only logged (background.js:261-264). A URL
  is stored under the user's mask, which can be any of 0..7 (url-utils.js:171, background.js:57).
  The browser's URL parser is outside the model: a URL arrives already split into host,
  pathname, search and hash, or as `None` when the parser rejected it.
- **Specificity and match resolver** (`background.js`, module `Background`).
  `calculateSpecificity` computes a score of 1 + 10 + 100 + 1000, each bonus present or not.
  `matchesURL` compares the host and every component flagged in the record's mask. The
  best-match loop keeps the first record with the highest score among those that match. It is
  a method with a loop invariant, proved against the recursive function `BestOf`. The handlers
  `findZoomForURL` and `storeZoomForURL` are methods too, and so is the `onZoomChange`
  decision: a change to the default zoom deletes the URL's best match, any other zoom is
  upserted.
- **Record store and capacity manager** (`db-utils.js`, module `DbUtils`).
  The IndexedDB object store is the class `ZoomStore`. Its field `rows` holds the records in
  ascending id order, the order `getAll` returns them in, from the store or from its host index.
  Its field `nextId` is the auto-increment key generator. Every database operation is a method
  that reads or updates these fields.
  Each method is proved against a pure function of the old state: `Upserted`, `Touch`,
  `WithoutId`, `SelectOldest`, `PurgedRows` and `Enforced`. Lemmas state what those functions
  promise: de-duplication, count changes, oldest-first order, and the size of a purge.

`wrappers.dfy` holds `Option`, `Result` and `Outcome`. These model a `null` result, a rejected
promise and a promise that resolves with no value.

The clock (`Date.now()`) is a parameter `now`. The settings the source reads from browser
storage are parameters as well: include-path/query/fragment, storage limit and purge
percentage. The source's defaults for the last two are 10000 and 10 (db-utils.js:439-442).

Three consequences of the code are worth stating.

- The purge count is `max(1, floor(total * percentage / 100))` (db-utils.js:418): it is
  rounded down. `DbUtils.PurgeCountIsFloored` shows that 101 records at 10% purge 10.
- One limit check makes one purge, and the count can stay above the limit afterwards
  (db-utils.js:446-453). `DbUtils.EnforceMayStayOverLimit` shows 200 records with limit 100
  ending at 180. `DbUtils.EnforceAfterOneInsert` shows the bound holds when the check runs after
  every single insertion.
- De-duplication compares all four components, even those the mask ignores (db-utils.js:97-100).
  `Background.OlderDuplicateWins` shows two records for a.com/p that differ only in the query.
  Both match a.com/p?x=2 with equal scores, and the strict `>` (background.js:111) keeps the
  older one.

The pure functions the methods are proved against appear in the table through the lemmas about
them: `Upserted` through the Upsert lemmas, `Touch` through `TouchEffect`, `WithoutId` through
the WithoutId lemmas, `SelectOldest` through the SelectOldest lemmas, `PurgedRows` through
`PurgeEffect`, `Enforced` through the Enforce lemmas, `BestOf` through `BestOfIsBestMatch`,
`LookupBest` through `LookupBestIsBest`, and `ClearedRows` through `ClearedRowsEffect`.

## Model

| member | source | states |
|---|---|---|
| UrlUtils.ToLower | url-utils.js:18 | the host is lower-cased character by character and keeps its length |
| UrlUtils.ToLowerKeepsSeparators | url-utils.js:18 | lower-casing neither creates nor removes '/', '?' or '#': the host has none of them iff its lower-cased form has none |
| UrlUtils.Rooted | url-utils.js:37-39 | the result begins with '/'; a path already starting with '/' is kept, any other gets '/' in front |
| UrlUtils.NormalizePath | url-utils.js:35-52 | always rooted; "" and "/" give "/"; at most one trailing '/' is removed, and only from a rooted path longer than "/"; no new characters |
| UrlUtils.NormalizePathNotIdempotent | url-utils.js:47-51 | "/a//" normalises to "/a/", which normalises again to "/a" |
| UrlUtils.ParseUrl | url-utils.js:13-28 | null exactly when the URL does not parse; host lower-cased, path normalised, query and fragment passed through unchanged; well-formed parser output gives well-formed parts |
| UrlUtils.GenerateComponentBitmask | url-utils.js:59-67 | the mask is in 0..7, with bit 1 set iff includePath, bit 2 iff includeQuery, bit 4 iff includeFragment |
| UrlUtils.Standardized | url-utils.js:75-96 | host followed by path, query and fragment in that order, each present iff its bit is set; no bit set gives the host alone |
| UrlUtils.CreateStandardizedUrl | url-utils.js:75-96 | null parts give null; otherwise the canonical string of the parts; mask 0 gives exactly the host |
| UrlUtils.TailShape | url-utils.js:75-96 | for well-formed parts, whatever follows the host in a canonical string is empty or starts with '/', '?' or '#' |
| UrlUtils.StandardizedAgreement | url-utils.js:75-96 | two well-formed URLs have the same canonical string for a mask exactly when they agree on the host and on every component the mask selects |
| UrlUtils.GenerateSpecificityLevels | url-utils.js:103-153 | no levels for null parts; otherwise 1 to 5 levels, the last being the host-only level (mask 0, string equal to the host) |
| UrlUtils.SpecificityLevelsOrdered | url-utils.js:107-152 | the level masks form an ordered subsequence of 7, 3, 5, 1, 0 |
| UrlUtils.SpecificityLevelsUrls | url-utils.js:107-152 | every level's mask is one of 7, 3, 5, 1, 0, its string is the canonical string of the URL under that mask, and its description is the label for that mask |
| UrlUtils.SpecificityLevelsPresence | url-utils.js:110-143 | level 7 iff query or fragment non-empty (also for path "/"); 3 iff query non-empty and path not "/"; 5 iff fragment non-empty and path not "/"; 1 iff path not "/"; 0 always |
| UrlUtils.CreateUrlData | url-utils.js:160-180 | null iff the URL does not parse; otherwise the parsed parts, the user mask (bits iff settings), the user canonical string for that mask and the specificity levels |
| UrlUtils.GetUserStandardizedUrl | url-utils.js:188-207 | null iff the URL does not parse; otherwise the host followed by the components the settings select |
| UrlUtils.UserStandardizedAgreement | url-utils.js:188-207 | two well-formed URLs share a user-standardized string exactly when they agree on host and on every component the settings select |
| Background.CalculateSpecificity | background.js:149-167 | the score is in 1..1111 and ends in digit 1; the tens digit is 1 if the path bonus is earned (path flag and path not "/") and 0 otherwise, the hundreds digit likewise for the query bonus, the thousands digit for the fragment bonus: the weights are exactly 1, 10, 100 and 1000 |
| Background.SpecificityDominance | background.js:21-26 | a fragment bonus outranks any record without one; a query bonus outranks any record with at most the path bonus; a path bonus outranks host-only; equal scores iff the same bonuses |
| Background.MatchesUrl | background.js:175-203 | true iff the hosts are equal and every component flagged in the record's own mask is equal |
| Background.MatchesNeedsHost | background.js:177-179 | a record on another host never matches |
| Background.HostOnlyMatchesAll | background.js:182-202 | a record with mask 0 matches every URL on its host |
| Background.MatchesIffSameStandardized | background.js:175-203 | for well-formed parts, a record matches exactly when its canonical string under its own mask equals the URL's |
| Background.BestMatchUnique | background.js:105-115 | the first most-specific match is unique |
| Background.BestOfIsBestMatch | background.js:105-115 | the loop's outcome is null iff no record matches; otherwise it is the first record among those with the highest score of any match |
| Background.FindBestMatch | background.js:105-115 | the loop computes BestOf; the best score is -1 or the chosen record's score; null iff nothing matches, otherwise the first of the most specific matches |
| Background.LookupBestIsBest | background.js:95-115 | searching only the URL's host records finds a record iff some record of the whole store matches, and then one with the top score of all matching records |
| Background.HostRecordsAfterTouch | background.js:122-125 | refreshing a timestamp commutes with selecting a host's records |
| Background.BestOfAfterTouch | background.js:122-125 | refreshing a timestamp leaves the best match the same record, up to its timestamp |
| Background.LookupAfterTouch | background.js:361-389 | the lookup finds the same record id before and after the timestamp refresh made by the earlier lookup |
| Background.FindZoomForUrl | background.js:82-137 | unparsable URL or no match: no zoom and the store unchanged; otherwise the best match's zoom, with only that record's timestamp set to now |
| Background.OlderDuplicateWins | background.js:105-115 | with mask 1, a.com/p?x=1 then a.com/p?x=2 gives two records that both match a.com/p?x=2 with equal scores, and the lookup finds the older one |
| Background.EntryFor | background.js:52-60 | the entry carries the URL's normalised host, path, query and fragment, the user mask and the zoom level |
| Background.StoreZoomForUrl | background.js:38-79 | unparsable URL: no id, no change; otherwise the upsert's id is returned and the store is the limit check applied to the upserted table |
| Background.ClearedRowsEffect | background.js:357-394 | going back to the default zoom adds and alters nothing; it deletes exactly the URL's best match when there is one; an unparsable URL or no match leaves the rows unchanged |
| Background.OnZoomChange | background.js:336-398 | non-http URLs change nothing; the default zoom deletes at most the best match and never stores; any other zoom performs exactly one upsert of (URL parts, user mask, new zoom) followed by the limit check |
| DbUtils.HostRecords | db-utils.js:134-151 | exactly the records of the host, in ascending id order |
| DbUtils.WithoutIdMembers | db-utils.js:212-228 | after a delete, the records are those of the table with another id, still in ascending id order |
| DbUtils.WithoutIdCount | db-utils.js:212-228 | deleting a present id removes one record; deleting a missing id changes nothing |
| DbUtils.WithoutIdValid | db-utils.js:212-228 | a delete keeps the table valid |
| DbUtils.RecentRecords | db-utils.js:354-358 | exactly the records whose timestamp is at or after the cutoff, in id order, so a record of a valid table appears once |
| DbUtils.RecentRecordsCount | db-utils.js:354-358 | in an id-ordered table the range count equals the number of distinct records stamped at or after the cutoff |
| DbUtils.HostsOfFacts | db-utils.js:374-383 | the host set holds exactly the hosts of the records and is no larger than the table |
| DbUtils.FirstTuple | db-utils.js:96-104 | none iff no host record has the entry's (mask, path, query, fragment); otherwise such a record |
| DbUtils.UpsertExisting | db-utils.js:106-113 | with a matching record, the upsert overwrites it under the same id, the count is unchanged and no id is consumed |
| DbUtils.UpsertFresh | db-utils.js:114-120 | without a matching record, the entry is appended under the next id, which is returned and consumed |
| DbUtils.UpsertEffect | db-utils.js:96-120 | the table stays valid; exactly one record has the entry's tuple, the entry stamped now under the returned id; the count grows iff the tuple was new; every other record is untouched |
| DbUtils.UpsertTwice | db-utils.js:96-120 | storing a tuple a second time finds the first record, returns its id, consumes no id and keeps the count |
| DbUtils.TouchEffect | db-utils.js:165-176 | a refresh keeps the table valid and changes only the timestamp of the record with that id |
| DbUtils.DeleteAfterTouch | db-utils.js:212-228 | deleting an id after refreshing it gives the same table as deleting it straight away |
| DbUtils.MinIndexIsFirstMinimum | db-utils.js:318-331 | the cursor's next record has the least timestamp, and every earlier row has a larger one |
| DbUtils.SelectOldestSize | db-utils.js:312-338 | the selection has min(limit, count) records, all from the table |
| DbUtils.SelectOldestDistinct | db-utils.js:312-338 | the selection never returns a record twice |
| DbUtils.SelectOldestSorted | db-utils.js:312-338 | the selection is in ascending timestamp order |
| DbUtils.SelectOldestTieOrder | db-utils.js:312-338 | in an id-ordered table the selection follows the timestamp index: ascending timestamps, and records with equal timestamps in ascending id order |
| DbUtils.SelectOldestAreOldest | db-utils.js:312-338 | every selected record is no newer than every record left out |
| DbUtils.PurgeCount | db-utils.js:414-418 | 0 for an empty table; otherwise 1..total for a valid percentage; 1 exactly when total times percentage is below 200, and otherwise the floor of total times percentage over 100 |
| DbUtils.PurgeCountIsFloored | db-utils.js:418 | 101 records at 10% give 10, and 9 records at 10% give 1 |
| DbUtils.DeleteAllEffect | db-utils.js:426-429 | deleting distinct records of the table one by one keeps it valid, removes exactly them and shrinks it by their number |
| DbUtils.PurgeEffect | db-utils.js:408-432 | a purge removes PurgeCount records, all from the table and none newer than a record it keeps, and the table stays valid |
| DbUtils.EnforceAfterOneInsert | db-utils.js:446-453 | with at most one record over the limit, a check brings the count within the limit |
| DbUtils.EnforceMayStayOverLimit | db-utils.js:446-453 | 200 records, limit 100, 10%: one check leaves 180 |
| DbUtils.ZoomStore.constructor | db-utils.js:15-57 | an empty valid store whose key generator starts at 1 |
| DbUtils.ZoomStore.FindZoomSettingsByHost | db-utils.js:134-151 | exactly the host's records, in ascending id order |
| DbUtils.ZoomStore.StoreZoomSetting | db-utils.js:80-127 | the table becomes the upsert of the entry stamped now; the returned id is the existing record's or the new one |
| DbUtils.ZoomStore.UpdateTimestamp | db-utils.js:158-183 | a missing id rejects with "Record not found" and changes nothing; otherwise only that record's timestamp becomes now |
| DbUtils.ZoomStore.GetAllZoomSettings | db-utils.js:189-205 | all records, with ids strictly increasing |
| DbUtils.ZoomStore.RemoveZoomSetting | db-utils.js:212-228 | the table loses the record with that id and nothing else; the key generator is unchanged |
| DbUtils.ZoomStore.ClearAllZoomSettings | db-utils.js:234-250 | the table becomes empty and the key generator is not reset |
| DbUtils.ZoomStore.GetZoomSettingsCount | db-utils.js:256-272 | the number of records |
| DbUtils.ZoomStore.FindOldestZoomSettings | db-utils.js:312-338 | the cursor loop returns the oldest-first selection of the table |
| DbUtils.ZoomStore.CountRecentlyUsedZoomSettings | db-utils.js:345-368 | the number of distinct records with timestamp at or after now minus the given days, at most the count |
| DbUtils.ZoomStore.CountUniqueHosts | db-utils.js:374-383 | the number of distinct hosts, at most the count |
| DbUtils.ZoomStore.GetDatabaseMetrics | db-utils.js:389-401 | total, the number of distinct hosts and the number of distinct records used in the last 7 days |
| DbUtils.ZoomStore.PurgeOldestEntries | db-utils.js:408-432 | a percentage outside 1..100 fails with "Percentage must be between 1 and 100" before any change; otherwise the purge count is returned and the table is the purged table |
| DbUtils.ZoomStore.CheckAndEnforceStorageLimit | db-utils.js:438-454 | at or under the limit: false, no change; over it: one purge, then true, or the purge's error |

## Left out

- The browser's URL parser (`new URL`) is a foreign library. A URL arrives already split, or as `None` when the parser rejects it. `WellFormedSplit` states what the model assumes about the split strings.
- Lower-casing covers ASCII letters only. Non-ASCII host characters are kept as they are.
- Event listeners, `browser.tabs` calls, message dispatch, `applyZoomToTab`, `checkAndApplyZoom` and the debug-only `testEnhancedURLHandling` are event glue and browser I/O.
- `initDatabase`, the IndexedDB schema and its request errors are replaced by an in-memory table whose operations always succeed. An operation the source rejects only because of a failed IndexedDB request has no failure path here.
- `debugLog` and the console logging are left out. So is the `fullURL`/`original` field of the parsed URL, which nothing in the core reads.
- Settings reads from `browser.storage` are parameters of the operations, so the local-versus-sync storage inconsistency is not modelled.
- The 0.01 tolerance test against the default zoom is floating-point arithmetic. It is the boolean parameter `isDefault`, and zoom levels are opaque reals.
- `getZoomSettingsSize` and the `estimatedSize` metric depend on `JSON.stringify` lengths and number formatting.
- Concurrency is not modelled. Each operation is one sequential step. The unawaited `updateTimestamp` in `findZoomForURL` completes before the caller goes on. The limit check that `storeZoomForURL` defers with `setTimeout` runs right after the store.
- `percentage`, `storageLimit`, `days` and `limit` are modelled as integers, while the source takes any JavaScript number. A fractional percentage such as 0.5 passes the range test at db-utils.js:409, and it purges max(1, floor(total * 0.5 / 100)) records. The model does not cover it.
- Masks are unbounded naturals, and a bit test is `(m / flag) % 2 == 1`. The 32-bit conversion JavaScript's `&` applies to huge masks is not modelled.
- `options/options.js` and `popup/popup.js` hold UI code with no core logic.
- DbUtils.ZoomStore.PurgeOldestEntries: its ensures gives the result and the new table as `PurgedRows` and states nothing more. How many records go and which ones is proved about `PurgedRows` in `DbUtils.PurgeEffect`.
