/**
 * The zoom resolver of the background script (background.js): specificity scores, the
 * mask-driven match predicate, the best-match loop, and the lookup, store and zoom-change
 * operations over a `ZoomStore`.
 *
 * Browser calls are parameters: the URL the tab shows, what `new URL` split it into, the user's
 * component settings, the clock, the storage-limit settings, and whether the new zoom counts as
 * the default zoom.
 */
module Background {
  import opened Wrappers
  import opened UrlUtils
  import opened DbUtils

  // The weights of `SPECIFICITY_SCORES`.
  const ScoreHost: int := 1
  const ScorePath: int := 10
  const ScoreQuery: int := 100
  const ScoreFragment: int := 1000

  // ---------------------------------------------------------------------------
  // Specificity
  // ---------------------------------------------------------------------------

  /** The record's path counts: the mask selects it and it is not the root path. */
  predicate EarnsPath(r: ZoomRecord)
  {
    HasFlag(r.componentMask, ComponentPath) && r.path != "/"
  }

  /** The record's query counts: the mask selects it and it is not empty. */
  predicate EarnsQuery(r: ZoomRecord)
  {
    HasFlag(r.componentMask, ComponentQuery) && r.query != ""
  }

  /** The record's fragment counts: the mask selects it and it is not empty. */
  predicate EarnsFragment(r: ZoomRecord)
  {
    HasFlag(r.componentMask, ComponentFragment) && r.fragment != ""
  }

  /**
   * `calculateSpecificity`: the score is a decimal number whose digits record which
   * components the record earns, with the host digit always 1.
   */
  function CalculateSpecificity(r: ZoomRecord): (s: int)
    ensures 1 <= s <= 1111
    ensures s % 10 == 1
    ensures EarnsPath(r) <==> s % 100 >= 10
    ensures EarnsQuery(r) <==> s % 1000 >= 100
    ensures EarnsFragment(r) <==> s >= 1000
    // each bonus adds exactly its weight: one unit in its own decimal digit
    ensures (s / 10) % 10 == (if EarnsPath(r) then 1 else 0)
    ensures (s / 100) % 10 == (if EarnsQuery(r) then 1 else 0)
    ensures s / 1000 == (if EarnsFragment(r) then 1 else 0)
  {
    var specificity := ScoreHost;
    var withPath := if EarnsPath(r) then specificity + ScorePath else specificity;
    var withQuery := if EarnsQuery(r) then withPath + ScoreQuery else withPath;
    if EarnsFragment(r) then withQuery + ScoreFragment else withQuery
  }

  /**
   * The weights rank records lexicographically: a fragment bonus beats anything without one, then
   * a query bonus, then a path bonus; equal scores mean equal bonuses.
   */
  lemma SpecificityDominance(a: ZoomRecord, b: ZoomRecord)
    ensures EarnsFragment(a) && !EarnsFragment(b) ==> CalculateSpecificity(a) > CalculateSpecificity(b)
    ensures !EarnsFragment(b) && !EarnsQuery(b) && EarnsQuery(a) ==> CalculateSpecificity(a) > CalculateSpecificity(b)
    ensures (!EarnsFragment(b) && !EarnsQuery(b) && !EarnsPath(b) && EarnsPath(a))
      ==> CalculateSpecificity(a) > CalculateSpecificity(b)
    ensures CalculateSpecificity(a) == CalculateSpecificity(b) <==>
              (EarnsPath(a) <==> EarnsPath(b)) && (EarnsQuery(a) <==> EarnsQuery(b))
              && (EarnsFragment(a) <==> EarnsFragment(b))
  {
  }

  // ---------------------------------------------------------------------------
  // Matching
  // ---------------------------------------------------------------------------

  /** The components of a stored record, as URL parts. */
  function RecordParts(r: ZoomRecord): UrlParts
  {
    UrlParts(r.host, r.path, r.query, r.fragment)
  }

  /**
   * `matchesURL`: the hosts are equal and so is every component the record's own mask
   * selects; other components are ignored.
   */
  function MatchesUrl(record: ZoomRecord, parts: UrlParts): (b: bool)
    ensures b <==> Agree(RecordParts(record), parts, record.componentMask)
  {
    if record.host != parts.host then false
    else if HasFlag(record.componentMask, ComponentPath) && record.path != parts.path then false
    else if HasFlag(record.componentMask, ComponentQuery) && record.query != parts.query then false
    else if HasFlag(record.componentMask, ComponentFragment) && record.fragment != parts.fragment then false
    else true
  }

  /** A record never matches a URL on another host. */
  lemma MatchesNeedsHost(record: ZoomRecord, parts: UrlParts)
    ensures record.host != parts.host ==> !MatchesUrl(record, parts)
  {
  }

  /** A host-only record matches every URL on its host. */
  lemma HostOnlyMatchesAll(record: ZoomRecord, parts: UrlParts)
    requires record.componentMask == 0
    ensures MatchesUrl(record, parts) <==> record.host == parts.host
  {
  }

  /**
   * For well-formed components, a record matches a URL exactly when both have the same canonical
   * string under the record's mask: the record stands for one canonical URL.
   */
  lemma MatchesIffSameStandardized(record: ZoomRecord, parts: UrlParts)
    requires WellFormed(RecordParts(record)) && WellFormed(parts)
    ensures MatchesUrl(record, parts)
            <==> Standardized(RecordParts(record), record.componentMask) == Standardized(parts, record.componentMask)
  {
    StandardizedAgreement(RecordParts(record), parts, record.componentMask);
  }

  // ---------------------------------------------------------------------------
  // The best-match loop
  // ---------------------------------------------------------------------------

  /** The score to beat: -1 before any record was chosen. */
  function ScoreOf(best: Option<ZoomRecord>): int
  {
    match best
    case None => -1
    case Some(r) => CalculateSpecificity(r)
  }

  /** The outcome of the best-match loop over `records`, fed one record at a time. */
  function BestOf(records: seq<ZoomRecord>, parts: UrlParts): Option<ZoomRecord>
  {
    if records == [] then None
    else
      var prev := BestOf(records[..|records| - 1], parts);
      var r := records[|records| - 1];
      if MatchesUrl(r, parts) && CalculateSpecificity(r) > ScoreOf(prev) then Some(r) else prev
  }

  /**
   * `records[k]` matches, no matching record scores higher, and every matching record before it
   * scores lower: the first of the most specific matches.
   */
  predicate IsBestMatch(records: seq<ZoomRecord>, parts: UrlParts, k: int)
  {
    && 0 <= k < |records|
    && MatchesUrl(records[k], parts)
    && (forall j :: 0 <= j < |records| && MatchesUrl(records[j], parts)
          ==> CalculateSpecificity(records[j]) <= CalculateSpecificity(records[k]))
    && (forall j :: 0 <= j < k && MatchesUrl(records[j], parts)
          ==> CalculateSpecificity(records[j]) < CalculateSpecificity(records[k]))
  }

  /** There is at most one first most-specific match. */
  lemma BestMatchUnique(records: seq<ZoomRecord>, parts: UrlParts, k1: int, k2: int)
    requires IsBestMatch(records, parts, k1) && IsBestMatch(records, parts, k2)
    ensures k1 == k2
  {
  }

  /** A last record that does not beat the best match so far leaves it the best match. */
  lemma BestMatchKeep(front: seq<ZoomRecord>, r: ZoomRecord, parts: UrlParts, k: int)
    requires IsBestMatch(front, parts, k)
    requires !(MatchesUrl(r, parts) && CalculateSpecificity(r) > CalculateSpecificity(front[k]))
    ensures IsBestMatch(front + [r], parts, k) && (front + [r])[k] == front[k]
  {
    var records := front + [r];
    assert forall j :: 0 <= j < |front| ==> records[j] == front[j];
    assert records[|front|] == r;
  }

  /** A last record that matches and beats the best score so far becomes the best match. */
  lemma BestMatchNew(front: seq<ZoomRecord>, r: ZoomRecord, parts: UrlParts, best: Option<ZoomRecord>)
    requires best.None? ==> forall j :: 0 <= j < |front| ==> !MatchesUrl(front[j], parts)
    requires best.Some? ==> exists k :: IsBestMatch(front, parts, k) && front[k] == best.value
    requires MatchesUrl(r, parts) && CalculateSpecificity(r) > ScoreOf(best)
    ensures IsBestMatch(front + [r], parts, |front|)
  {
    var records := front + [r];
    assert forall j :: 0 <= j < |front| ==> records[j] == front[j];
    if best.Some? {
      var k :| IsBestMatch(front, parts, k) && front[k] == best.value;
    }
  }

  /**
   * The loop finds nothing exactly when no record matches (every score beats -1), and otherwise
   * finds the first of the most specific matches.
   */
  lemma {:induction false} BestOfIsBestMatch(records: seq<ZoomRecord>, parts: UrlParts)
    ensures BestOf(records, parts).None? <==> forall j :: 0 <= j < |records| ==> !MatchesUrl(records[j], parts)
    ensures BestOf(records, parts).Some? ==>
              exists k :: IsBestMatch(records, parts, k) && records[k] == BestOf(records, parts).value
  {
    if records != [] {
      var n := |records| - 1;
      var front := records[..n];
      var r := records[n];
      assert records == front + [r];
      BestOfIsBestMatch(front, parts);
      var prev := BestOf(front, parts);
      if MatchesUrl(r, parts) && CalculateSpecificity(r) > ScoreOf(prev) {
        BestMatchNew(front, r, parts, prev);
      } else if prev.Some? {
        var k :| IsBestMatch(front, parts, k) && front[k] == prev.value;
        BestMatchKeep(front, r, parts, k);
      } else {
        assert forall j :: 0 <= j < n ==> records[j] == front[j];
      }
    }
  }

  /** The best-match loop of `findZoomForURL` and of the zoom-change handler. */
  method FindBestMatch(records: seq<ZoomRecord>, parts: UrlParts)
    returns (bestMatch: Option<ZoomRecord>, bestSpecificity: int)
    ensures bestMatch == BestOf(records, parts)
    ensures bestSpecificity == ScoreOf(bestMatch)
    ensures bestMatch.None? <==> forall j :: 0 <= j < |records| ==> !MatchesUrl(records[j], parts)
    ensures bestMatch.Some? ==> exists k :: IsBestMatch(records, parts, k) && records[k] == bestMatch.value
  {
    bestMatch := None;
    bestSpecificity := -1;
    for i := 0 to |records|
      invariant bestMatch == BestOf(records[..i], parts)
      invariant bestSpecificity == ScoreOf(bestMatch)
    {
      var record := records[i];
      var specificity := CalculateSpecificity(record);
      assert records[..i + 1][..i] == records[..i];
      if MatchesUrl(record, parts) && specificity > bestSpecificity {
        bestMatch := Some(record);
        bestSpecificity := specificity;
      }
    }
    assert records[..|records|] == records;
    BestOfIsBestMatch(records, parts);
  }

  // ---------------------------------------------------------------------------
  // Lookup over the whole store
  // ---------------------------------------------------------------------------

  /** The record `findZoomForURL` settles on for a URL. */
  function LookupBest(rows: seq<ZoomRecord>, parts: UrlParts): Option<ZoomRecord>
  {
    BestOf(HostRecords(rows, parts.host), parts)
  }

  /**
   * Restricting the search to the URL's host loses nothing: the lookup finds a record exactly
   * when some record of the store matches, and then one that matches with the highest score of
   * any matching record.
   */
  lemma LookupBestIsBest(rows: seq<ZoomRecord>, parts: UrlParts)
    ensures LookupBest(rows, parts).None? <==> forall r :: r in rows ==> !MatchesUrl(r, parts)
    ensures LookupBest(rows, parts).Some? ==>
      var b := LookupBest(rows, parts).value;
      && b in rows && MatchesUrl(b, parts)
      && forall r :: r in rows && MatchesUrl(r, parts) ==> CalculateSpecificity(r) <= CalculateSpecificity(b)
  {
    var hs := HostRecords(rows, parts.host);
    BestOfIsBestMatch(hs, parts);
    forall r | r in rows && MatchesUrl(r, parts) ensures r in hs {
      MatchesNeedsHost(r, parts);
    }
    if LookupBest(rows, parts).Some? {
      var k :| IsBestMatch(hs, parts, k) && hs[k] == LookupBest(rows, parts).value;
      forall r | r in rows && MatchesUrl(r, parts)
        ensures CalculateSpecificity(r) <= CalculateSpecificity(hs[k])
      {
        var j :| 0 <= j < |hs| && hs[j] == r;
      }
    } else {
      forall r | r in rows ensures !MatchesUrl(r, parts) {
        if r in hs {
          var j :| 0 <= j < |hs| && hs[j] == r;
        }
      }
    }
  }

  lemma {:induction false} HostRecordsAfterTouch(rows: seq<ZoomRecord>, host: string, id: nat, now: int)
    ensures HostRecords(Touch(rows, id, now), host) == Touch(HostRecords(rows, host), id, now)
  {
    if rows != [] {
      HostRecordsAfterTouch(rows[1..], host, id, now);
      TouchSplit(rows, id, now);
      var rest := HostRecords(rows[1..], host);
      if rows[0].host == host {
        TouchSplit([rows[0]] + rest, id, now);
        assert ([rows[0]] + rest)[1..] == rest;
      }
    }
  }

  lemma {:induction false} BestOfAfterTouch(records: seq<ZoomRecord>, parts: UrlParts, id: nat, now: int)
    ensures BestOf(Touch(records, id, now), parts) ==
      match BestOf(records, parts)
      case None => None
      case Some(b) => Some(Touched(b, id, now))
  {
    if records != [] {
      var n := |records| - 1;
      BestOfAfterTouch(records[..n], parts, id, now);
      TouchSplit(records, id, now);
    }
  }

  /**
   * Refreshing a timestamp does not change which record a lookup settles on: only timestamps
   * differ between the touched and the untouched store, and neither score nor match reads them.
   */
  lemma LookupAfterTouch(rows: seq<ZoomRecord>, parts: UrlParts, id: nat, now: int)
    ensures LookupBest(Touch(rows, id, now), parts).None? <==> LookupBest(rows, parts).None?
    ensures LookupBest(rows, parts).Some? ==>
              LookupBest(Touch(rows, id, now), parts).value.id == LookupBest(rows, parts).value.id
  {
    HostRecordsAfterTouch(rows, parts.host, id, now);
    BestOfAfterTouch(HostRecords(rows, parts.host), parts, id, now);
  }

  /**
   * De-duplication compares the query even when the mask ignores it. With the default mask (path
   * only), storing a zoom for a.com/p?x=2 after one for a.com/p?x=1 adds a second record; both
   * match a.com/p?x=2 with the same score, and the strict `>` keeps the older record, so the
   * newer zoom is not the one found.
   */
  lemma OlderDuplicateWins()
    ensures var e1 := ZoomEntry("a.com", "/p", "?x=1", "", 1, 1.5);
            var e2 := ZoomEntry("a.com", "/p", "?x=2", "", 1, 2.0);
            var u1 := Upserted([], 1, e1, 10);
            var u2 := Upserted(u1, NextIdAfter([], 1, e1), e2, 20);
            var parts := UrlParts("a.com", "/p", "?x=2", "");
      && u2 == [Stamp(1, e1, 10), Stamp(2, e2, 20)]
      && MatchesUrl(u2[0], parts) && MatchesUrl(u2[1], parts)
      && CalculateSpecificity(u2[0]) == CalculateSpecificity(u2[1])
      && LookupBest(u2, parts) == Some(Stamp(1, e1, 10))
  {
    var e1 := ZoomEntry("a.com", "/p", "?x=1", "", 1, 1.5);
    var e2 := ZoomEntry("a.com", "/p", "?x=2", "", 1, 2.0);
    var r1 := Stamp(1, e1, 10);
    var r2 := Stamp(2, e2, 20);
    assert ExistingId([], e1) == None;
    assert [r1][1..] == [];
    assert HostRecords([r1], e2.host) == [r1];
    assert !SameTuple(r1, e2) by { assert r1.query[3] != e2.query[3]; }
    assert FirstTuple([r1], e2) == None;
    var u2 := [r1, r2];
    var parts := UrlParts("a.com", "/p", "?x=2", "");
    assert u2[1..] == [r2] && [r2][1..] == [];
    assert HostRecords(u2, parts.host) == u2;
    assert u2[..1] == [r1] && [r1][..0] == [];
    assert CalculateSpecificity(r1) == 11 && CalculateSpecificity(r2) == 11;
    assert MatchesUrl(r1, parts) && MatchesUrl(r2, parts);
    assert BestOf([r1], parts) == Some(r1);
  }

  method FindZoomForUrl(store: ZoomStore, split: Option<UrlSplit>, settings: ComponentSettings, now: int)
    returns (zoom: Option<real>)
    requires store.Valid()
    modifies store
    ensures store.Valid() && store.nextId == old(store.nextId)
    ensures ParseUrl(split).None? ==> zoom.None? && store.rows == old(store.rows)
    ensures ParseUrl(split).Some? ==>
      match LookupBest(old(store.rows), ParseUrl(split).value)
      case None => zoom.None? && store.rows == old(store.rows)
      case Some(b) => zoom == Some(b.zoomLevel) && store.rows == Touch(old(store.rows), b.id, now)
  {
    var urlData := CreateUrlData(split, settings);
    if urlData.None? {
      return None;
    }
    var parts := urlData.value.urlParts;
    var hostRecords := store.FindZoomSettingsByHost(parts.host);
    if |hostRecords| == 0 {
      return None;
    }
    var bestMatch, bestSpecificity := FindBestMatch(hostRecords, parts);
    if bestMatch.Some? {
      assert bestMatch.value in hostRecords;
      // the refresh cannot fail, since the record was just read; its error is ignored anyway
      var _ := store.UpdateTimestamp(bestMatch.value.id, now);
      return Some(bestMatch.value.zoomLevel);
    }
    return None;
  }

  // ---------------------------------------------------------------------------
  // Storing and the zoom-change handler
  // ---------------------------------------------------------------------------

  /** The entry `storeZoomForURL` builds: the normalised components under the user's mask. */
  function EntryFor(urlData: UrlData, zoomLevel: real): (e: ZoomEntry)
    ensures e.host == urlData.urlParts.host && e.componentMask == urlData.userBitmask
    ensures RecordParts(Stamp(0, e, 0)) == urlData.urlParts && e.zoomLevel == zoomLevel
  {
    ZoomEntry(urlData.urlParts.host, urlData.urlParts.path, urlData.urlParts.query,
              urlData.urlParts.fragment, urlData.userBitmask, zoomLevel)
  }

  /** `storeZoomForURL` followed by the storage-limit check it schedules. */
  method StoreZoomForUrl(store: ZoomStore, split: Option<UrlSplit>, settings: ComponentSettings,
                         zoomLevel: real, now: int, storageLimit: int, purgePercentage: int)
    returns (recordId: Option<nat>)
    requires store.Valid()
    modifies store
    ensures store.Valid()
    ensures CreateUrlData(split, settings).None? ==>
      recordId.None? && store.rows == old(store.rows) && store.nextId == old(store.nextId)
    ensures CreateUrlData(split, settings).Some? ==>
      var e := EntryFor(CreateUrlData(split, settings).value, zoomLevel);
      && recordId == Some(UpsertedId(old(store.rows), old(store.nextId), e))
      && store.nextId == NextIdAfter(old(store.rows), old(store.nextId), e)
      && store.rows == Enforced(Upserted(old(store.rows), old(store.nextId), e, now), storageLimit, purgePercentage)
  {
    var urlData := CreateUrlData(split, settings);
    if urlData.None? {
      return None;
    }
    var zoomEntry := EntryFor(urlData.value, zoomLevel);
    var id := store.StoreZoomSetting(zoomEntry, now);
    // a failing limit check is only logged
    var _ := store.CheckAndEnforceStorageLimit(storageLimit, purgePercentage);
    return Some(id);
  }

  /** `tab.url.startsWith("http")`. */
  predicate IsHttp(url: string)
  {
    |url| >= 4 && url[..4] == "http"
  }

  /** The rows after a change to the default zoom: the URL's best match, if any, is deleted. */
  function ClearedRows(rows: seq<ZoomRecord>, parts: Option<UrlParts>): seq<ZoomRecord>
  {
    match parts
    case None => rows
    case Some(p) =>
      match LookupBest(rows, p)
      case None => rows
      case Some(b) => WithoutId(rows, b.id)
  }

  /**
   * Returning to the default zoom never adds or alters a record and deletes at most one: the
   * URL's best match, when there is one.
   */
  lemma ClearedRowsEffect(rows: seq<ZoomRecord>, nextId: nat, parts: Option<UrlParts>)
    requires ValidTable(rows, nextId)
    ensures ValidTable(ClearedRows(rows, parts), nextId)
    ensures forall r :: r in ClearedRows(rows, parts) ==> r in rows
    ensures |rows| - 1 <= |ClearedRows(rows, parts)| <= |rows|
    ensures parts.None? || LookupBest(rows, parts.value).None? ==> ClearedRows(rows, parts) == rows
    ensures parts.Some? && LookupBest(rows, parts.value).Some? ==>
      var b := LookupBest(rows, parts.value).value;
      && b in rows && MatchesUrl(b, parts.value)
      && b !in ClearedRows(rows, parts) && |ClearedRows(rows, parts)| == |rows| - 1
  {
    if parts.Some? {
      LookupBestIsBest(rows, parts.value);
      match LookupBest(rows, parts.value)
      case None =>
      case Some(b) =>
        WithoutIdCount(rows, b.id);
        WithoutIdValid(rows, nextId, b.id);
        WithoutIdMembers(rows, b.id);
    }
  }

  /**
   * The `onZoomChange` listener for one zoom change of a tab showing `url`. A change to the default
   * zoom deletes the URL's best match; any other zoom is stored for the URL under the user's mask.
   */
  method OnZoomChange(store: ZoomStore, url: string, split: Option<UrlSplit>, settings: ComponentSettings,
                      newZoom: real, isDefault: bool, now: int, storageLimit: int, purgePercentage: int)
    requires store.Valid()
    modifies store
    ensures store.Valid()
    ensures !IsHttp(url) ==> store.rows == old(store.rows) && store.nextId == old(store.nextId)
    // the default zoom: never a store, at most the best match deleted
    ensures IsHttp(url) && isDefault ==>
      store.rows == ClearedRows(old(store.rows), ParseUrl(split)) && store.nextId == old(store.nextId)
    // any other zoom: exactly one store of (URL parts, user mask, new zoom), then the limit check
    ensures IsHttp(url) && !isDefault && CreateUrlData(split, settings).Some? ==>
      var e := EntryFor(CreateUrlData(split, settings).value, newZoom);
      && store.nextId == NextIdAfter(old(store.rows), old(store.nextId), e)
      && store.rows == Enforced(Upserted(old(store.rows), old(store.nextId), e, now), storageLimit, purgePercentage)
    ensures IsHttp(url) && !isDefault && CreateUrlData(split, settings).None? ==>
      store.rows == old(store.rows) && store.nextId == old(store.nextId)
  {
    if !IsHttp(url) {
      return;
    }
    if isDefault {
      var existingZoom := FindZoomForUrl(store, split, settings, now);
      if existingZoom.Some? {
        var urlData := CreateUrlData(split, settings);
        if urlData.Some? {
          var parts := urlData.value.urlParts;
          var hostRecords := store.FindZoomSettingsByHost(parts.host);
          var bestMatch, bestSpecificity := FindBestMatch(hostRecords, parts);
          LookupAfterTouch(old(store.rows), parts, LookupBest(old(store.rows), parts).value.id, now);
          if bestMatch.Some? {
            store.RemoveZoomSetting(bestMatch.value.id);
            DeleteAfterTouch(old(store.rows), bestMatch.value.id, now);
          }
        }
      }
    } else {
      var _ := StoreZoomForUrl(store, split, settings, newZoom, now, storageLimit, purgePercentage);
    }
  }
}
