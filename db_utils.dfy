/**
 * The zoom-setting record store and its capacity manager (db-utils.js).
 *
 * IndexedDB is replaced by an in-memory table: the rows of the object store in primary-key
 * order (ascending id) and the key generator's next id. The first half of this module gives the
 * meaning of every store operation as a function on the rows; the class `ZoomStore` at the end
 * runs the operations in place and is proved against those functions.
 */
module DbUtils {
  import opened Wrappers

  /** A stored zoom setting; `id` is the primary key the store assigns. */
  datatype ZoomRecord = ZoomRecord(id: nat, host: string, path: string, query: string, fragment: string,
                                   componentMask: nat, zoomLevel: real, timestamp: int)

  /** What a caller hands to `storeZoomSetting`: a record without id and timestamp. */
  datatype ZoomEntry = ZoomEntry(host: string, path: string, query: string, fragment: string,
                                 componentMask: nat, zoomLevel: real)

  /** The part of `getDatabaseMetrics` that does not depend on serialised sizes. */
  datatype Metrics = Metrics(totalEntries: nat, uniqueHosts: nat, recentEntries: nat)

  const MillisPerDay: int := 24 * 60 * 60 * 1000
  const RecentDays: int := 7
  const PercentageError: string := "Percentage must be between 1 and 100"
  const NotFoundError: string := "Record not found"

  function Stamp(id: nat, e: ZoomEntry, now: int): ZoomRecord
  {
    ZoomRecord(id, e.host, e.path, e.query, e.fragment, e.componentMask, e.zoomLevel, now)
  }

  /** The record has the entry's host, component mask, path, query and fragment. */
  predicate SameKey(a: ZoomRecord, b: ZoomRecord)
  {
    a.host == b.host && a.componentMask == b.componentMask
    && a.path == b.path && a.query == b.query && a.fragment == b.fragment
  }

  /** The record has the entry's tuple: it agrees on the key with the entry stamped as a record. */
  predicate SameTuple(r: ZoomRecord, e: ZoomEntry)
  {
    SameKey(r, Stamp(0, e, 0))
  }

  // ---------------------------------------------------------------------------
  // The table and its invariant
  // ---------------------------------------------------------------------------

  /** Rows are kept in primary-key order, as IndexedDB iterates them. */
  predicate IdsIncreasing(rows: seq<ZoomRecord>)
  {
    forall i, j :: 0 <= i < j < |rows| ==> rows[i].id < rows[j].id
  }

  /**
   * Ids are positive and below the key generator; at most one record per
   * (host, componentMask, path, query, fragment).
   */
  predicate ValidTable(rows: seq<ZoomRecord>, nextId: nat)
  {
    && nextId >= 1
    && IdsIncreasing(rows)
    && (forall r :: r in rows ==> 1 <= r.id < nextId)
    && (forall a, b :: a in rows && b in rows && SameKey(a, b) ==> a == b)
  }

  predicate HasId(rows: seq<ZoomRecord>, id: nat)
  {
    exists r :: r in rows && r.id == id
  }

  /** In a table with increasing ids, a record is determined by its id. */
  lemma IdDetermines(rows: seq<ZoomRecord>, a: ZoomRecord, b: ZoomRecord)
    requires IdsIncreasing(rows)
    requires a in rows && b in rows && a.id == b.id
    ensures a == b
  {
    var i :| 0 <= i < |rows| && rows[i] == a;
    var j :| 0 <= j < |rows| && rows[j] == b;
    assert i == j;
  }

  /** A record whose id is below every id of an increasing table can go in front of it. */
  lemma PrependIncreasing(x: ZoomRecord, rest: seq<ZoomRecord>)
    ensures IdsIncreasing(rest) && (forall r :: r in rest ==> x.id < r.id) ==> IdsIncreasing([x] + rest)
  {
    if IdsIncreasing(rest) && forall r :: r in rest ==> x.id < r.id {
      var s := [x] + rest;
      forall i, j | 0 <= i < j < |s| ensures s[i].id < s[j].id {
        assert s[j] == rest[j - 1];
        if i > 0 { assert s[i] == rest[i - 1]; }
      }
    }
  }

  // ---------------------------------------------------------------------------
  // Filters: the host index, deletion by id, the recent-timestamp range
  // ---------------------------------------------------------------------------

  /** `index('host').getAll(host)`: the host's records, in primary-key order. */
  function HostRecords(rows: seq<ZoomRecord>, host: string): (hs: seq<ZoomRecord>)
    ensures forall r :: r in hs <==> r in rows && r.host == host
    ensures |hs| <= |rows|
    ensures IdsIncreasing(rows) ==> IdsIncreasing(hs)
  {
    if rows == [] then []
    else
      var rest := HostRecords(rows[1..], host);
      assert forall r :: r in rows[1..] ==> r in rows;
      assert IdsIncreasing(rows) ==> IdsIncreasing(rows[1..]) && forall x :: x in rest ==> rows[0].id < x.id;
      PrependIncreasing(rows[0], rest);
      if rows[0].host == host then [rows[0]] + rest else rest
  }

  /** `store.delete(id)`: every record but the one with that id, order kept. */
  function WithoutId(rows: seq<ZoomRecord>, id: nat): seq<ZoomRecord>
  {
    if rows == [] then []
    else if rows[0].id == id then WithoutId(rows[1..], id)
    else [rows[0]] + WithoutId(rows[1..], id)
  }

  /** Deletion keeps exactly the records with other ids, and keeps them in order. */
  lemma {:induction false} WithoutIdMembers(rows: seq<ZoomRecord>, id: nat)
    ensures forall x :: x in WithoutId(rows, id) <==> x in rows && x.id != id
    ensures |WithoutId(rows, id)| <= |rows|
    ensures IdsIncreasing(rows) ==> IdsIncreasing(WithoutId(rows, id))
  {
    if rows != [] {
      var rest := WithoutId(rows[1..], id);
      WithoutIdMembers(rows[1..], id);
      assert rows == [rows[0]] + rows[1..];
      assert IdsIncreasing(rows) ==> IdsIncreasing(rows[1..]) && forall x :: x in rest ==> rows[0].id < x.id;
      PrependIncreasing(rows[0], rest);
    }
  }

  /** Deleting an id that is present removes exactly one record; an absent id removes none. */
  lemma {:induction false} WithoutIdCount(rows: seq<ZoomRecord>, id: nat)
    requires IdsIncreasing(rows)
    ensures HasId(rows, id) ==> |WithoutId(rows, id)| == |rows| - 1
    ensures !HasId(rows, id) ==> WithoutId(rows, id) == rows
  {
    if rows != [] {
      var rest := rows[1..];
      assert rows == [rows[0]] + rest;
      assert IdsIncreasing(rest);
      WithoutIdCount(rest, id);
      if rows[0].id == id {
        forall x | x in rest ensures x.id != id {
          var j :| 0 <= j < |rest| && rest[j] == x;
          assert rows[j + 1] == x;
        }
      } else {
        if HasId(rows, id) {
          var x :| x in rows && x.id == id;
          assert x in rest;
        }
        if HasId(rest, id) {
          var x :| x in rest && x.id == id;
          assert x in rows;
        }
      }
    }
  }

  lemma WithoutIdValid(rows: seq<ZoomRecord>, nextId: nat, id: nat)
    requires ValidTable(rows, nextId)
    ensures ValidTable(WithoutId(rows, id), nextId)
  {
    WithoutIdMembers(rows, id);
  }

  /** `index('timestamp').count(IDBKeyRange.lowerBound(cutoff))`: records stamped at or after `cutoff`. */
  function RecentRecords(rows: seq<ZoomRecord>, cutoff: int): (r: seq<ZoomRecord>)
    ensures forall x :: x in r <==> x in rows && x.timestamp >= cutoff
    ensures |r| <= |rows|
    // a subsequence of the rows, so a record of a valid table is counted once
    ensures IdsIncreasing(rows) ==> IdsIncreasing(r)
  {
    if rows == [] then []
    else
      var rest := RecentRecords(rows[1..], cutoff);
      assert forall x :: x in rows[1..] ==> x in rows;
      assert IdsIncreasing(rows) ==> IdsIncreasing(rows[1..]) && forall x :: x in rest ==> rows[0].id < x.id;
      PrependIncreasing(rows[0], rest);
      if rows[0].timestamp >= cutoff then [rows[0]] + rest else rest
  }

  /** The records stamped at or after `cutoff`, as a set. */
  function RecentSet(rows: seq<ZoomRecord>, cutoff: int): set<ZoomRecord>
  {
    set x | x in rows && x.timestamp >= cutoff
  }

  /** Peeling the front record off the recent set. */
  lemma RecentSetSplit(h: ZoomRecord, t: seq<ZoomRecord>, cutoff: int)
    ensures h.timestamp >= cutoff ==> RecentSet([h] + t, cutoff) == {h} + RecentSet(t, cutoff)
    ensures h.timestamp < cutoff ==> RecentSet([h] + t, cutoff) == RecentSet(t, cutoff)
  {
    forall x ensures x in [h] + t <==> x == h || x in t {
    }
  }

  /** In an id-ordered table no record repeats, so the range count is the number of recent records. */
  lemma {:induction false} RecentRecordsCount(rows: seq<ZoomRecord>, cutoff: int)
    requires IdsIncreasing(rows)
    ensures |RecentRecords(rows, cutoff)| == |RecentSet(rows, cutoff)|
  {
    if rows != [] {
      var h, t := rows[0], rows[1..];
      assert rows == [h] + t;
      assert IdsIncreasing(t);
      RecentRecordsCount(t, cutoff);
      RecentSetSplit(h, t, cutoff);
      if h.timestamp >= cutoff {
        assert RecentRecords(rows, cutoff) == [h] + RecentRecords(t, cutoff);
        assert h !in t by {
          forall j | 0 <= j < |t| ensures t[j] != h {
            assert rows[j + 1] == t[j];
          }
        }
        assert |{h} + RecentSet(t, cutoff)| == 1 + |RecentSet(t, cutoff)|;
      } else {
        assert RecentRecords(rows, cutoff) == RecentRecords(t, cutoff);
      }
    }
  }

  /** The distinct hosts of the rows, as `countUniqueHosts` collects them front to back. */
  function HostsOf(rows: seq<ZoomRecord>): set<string>
  {
    if rows == [] then {} else HostsOf(rows[..|rows| - 1]) + {rows[|rows| - 1].host}
  }

  /** The set collected is exactly the set of hosts, and there are no more hosts than records. */
  lemma {:induction false} HostsOfFacts(rows: seq<ZoomRecord>)
    ensures forall h :: h in HostsOf(rows) <==> exists r :: r in rows && r.host == h
    ensures |HostsOf(rows)| <= |rows|
  {
    if rows != [] {
      var front := rows[..|rows| - 1];
      HostsOfFacts(front);
      assert rows == front + [rows[|rows| - 1]];
      forall h ensures h in HostsOf(rows) <==> exists r :: r in rows && r.host == h {
        if h in HostsOf(front) {
          var r :| r in front && r.host == h;
          assert r in rows;
        }
        if exists r :: r in rows && r.host == h {
          var r :| r in rows && r.host == h;
          assert r in front || r == rows[|rows| - 1];
        }
      }
    }
  }

  // ---------------------------------------------------------------------------
  // Upsert (storeZoomSetting) and timestamp touch (updateTimestamp)
  // ---------------------------------------------------------------------------

  /** The first of `matches` with the entry's tuple: the search loop that breaks on a hit. */
  function FirstTuple(matches: seq<ZoomRecord>, e: ZoomEntry): (r: Option<ZoomRecord>)
    ensures r.None? <==> forall x :: x in matches ==> !SameTuple(x, e)
    ensures r.Some? ==> r.value in matches && SameTuple(r.value, e)
  {
    if matches == [] then None
    else if SameTuple(matches[0], e) then Some(matches[0])
    else
      assert forall x :: x in matches[1..] ==> x in matches;
      assert forall x :: x in matches ==> x == matches[0] || x in matches[1..];
      FirstTuple(matches[1..], e)
  }

  /** The id of the record with the entry's tuple, if there is one. */
  function ExistingId(rows: seq<ZoomRecord>, e: ZoomEntry): Option<nat>
  {
    match FirstTuple(HostRecords(rows, e.host), e)
    case Some(r) => Some(r.id)
    case None => None
  }

  /** `store.put(rec)` for a key that is present: the record with that id is replaced. */
  function Replace(rows: seq<ZoomRecord>, rec: ZoomRecord): (r: seq<ZoomRecord>)
  {
    seq(|rows|, i requires 0 <= i < |rows| => if rows[i].id == rec.id then rec else rows[i])
  }

  /** The rows after `storeZoomSetting(e)` at time `now`. */
  function Upserted(rows: seq<ZoomRecord>, nextId: nat, e: ZoomEntry, now: int): seq<ZoomRecord>
  {
    match ExistingId(rows, e)
    case Some(id) => Replace(rows, Stamp(id, e, now))
    case None => rows + [Stamp(nextId, e, now)]
  }

  /** The id `storeZoomSetting(e)` resolves with. */
  function UpsertedId(rows: seq<ZoomRecord>, nextId: nat, e: ZoomEntry): nat
  {
    match ExistingId(rows, e)
    case Some(id) => id
    case None => nextId
  }

  /** The key generator after `storeZoomSetting(e)`. */
  function NextIdAfter(rows: seq<ZoomRecord>, nextId: nat, e: ZoomEntry): nat
  {
    if ExistingId(rows, e).Some? then nextId else nextId + 1
  }

  /** With a record of the same tuple present, upsert overwrites it under its own id. */
  lemma UpsertExisting(rows: seq<ZoomRecord>, nextId: nat, e: ZoomEntry, now: int)
    requires ValidTable(rows, nextId)
    requires ExistingId(rows, e).Some?
    ensures exists i :: 0 <= i < |rows| && SameTuple(rows[i], e)
              && UpsertedId(rows, nextId, e) == rows[i].id
              && Upserted(rows, nextId, e, now) == rows[i := Stamp(rows[i].id, e, now)]
    ensures |Upserted(rows, nextId, e, now)| == |rows|
    ensures NextIdAfter(rows, nextId, e) == nextId
  {
    var found := FirstTuple(HostRecords(rows, e.host), e).value;
    var i :| 0 <= i < |rows| && rows[i] == found;
    var u := Upserted(rows, nextId, e, now);
    forall j | 0 <= j < |rows| ensures u[j] == rows[i := Stamp(rows[i].id, e, now)][j] {
      if j != i {
        assert rows[j].id != found.id;
      }
    }
  }

  /** With no record of the same tuple, upsert appends one under the next id. */
  lemma UpsertFresh(rows: seq<ZoomRecord>, nextId: nat, e: ZoomEntry, now: int)
    requires ExistingId(rows, e).None?
    ensures forall r :: r in rows ==> !SameTuple(r, e)
    ensures Upserted(rows, nextId, e, now) == rows + [Stamp(nextId, e, now)]
    ensures UpsertedId(rows, nextId, e) == nextId
    ensures NextIdAfter(rows, nextId, e) == nextId + 1
  {
    forall r | r in rows ensures !SameTuple(r, e) {
      assert r.host == e.host ==> r in HostRecords(rows, e.host);
    }
  }

  /** Overwriting a record with one of the same id and key keeps the table valid. */
  lemma UpdateAtEffect(rows: seq<ZoomRecord>, nextId: nat, i: nat, s: ZoomRecord)
    requires ValidTable(rows, nextId)
    requires i < |rows| && s.id == rows[i].id && SameKey(s, rows[i])
    ensures ValidTable(rows[i := s], nextId)
    ensures forall x :: x in rows[i := s] <==> x == s || (x in rows && x != rows[i])
  {
    var u := rows[i := s];
    assert u[i] == s;
    forall x ensures x in u <==> x == s || (x in rows && x != rows[i]) {
      if x in rows && x != rows[i] {
        var j :| 0 <= j < |rows| && rows[j] == x;
        assert u[j] == x;
      }
      if x in u && x != s {
        var j :| 0 <= j < |u| && u[j] == x;
        assert j != i && rows[j] == x;
      }
    }
    assert rows[i] in rows;
    forall a, b | a in u && b in u && SameKey(a, b) ensures a == b {
      if a != s && b != s {
        assert a in rows && b in rows;
      } else if a == s && b != s {
        // b would be a second record of the table with the key of rows[i]
        assert false;
      } else if a != s && b == s {
        assert false;
      }
    }
    assert IdsIncreasing(u) by {
      forall j, k | 0 <= j < k < |u| ensures u[j].id < u[k].id {
        assert u[j].id == rows[j].id && u[k].id == rows[k].id;
      }
    }
  }

  /** Appending a record under the next id, with a key no record has, keeps the table valid. */
  lemma AppendEffect(rows: seq<ZoomRecord>, nextId: nat, s: ZoomRecord)
    requires ValidTable(rows, nextId)
    requires s.id == nextId && forall r :: r in rows ==> !SameKey(r, s)
    ensures ValidTable(rows + [s], nextId + 1)
    ensures forall x :: x in rows + [s] <==> x == s || x in rows
  {
    var u := rows + [s];
    assert forall x :: x in u <==> x == s || x in rows;
    assert IdsIncreasing(u) by {
      forall j, k | 0 <= j < k < |u| ensures u[j].id < u[k].id {
        assert u[j] in rows;
      }
    }
  }

  /**
   * Upsert keeps the table valid; afterwards exactly one record has the entry's tuple, it is the
   * entry stamped `now` under the returned id, the count grew by one only when the tuple was
   * new, and every record with another tuple is untouched.
   */
  lemma UpsertEffect(rows: seq<ZoomRecord>, nextId: nat, e: ZoomEntry, now: int)
    requires ValidTable(rows, nextId)
    ensures var u := Upserted(rows, nextId, e, now);
      && ValidTable(u, NextIdAfter(rows, nextId, e))
      && Stamp(UpsertedId(rows, nextId, e), e, now) in u
      && (forall r :: r in u && SameTuple(r, e) ==> r == Stamp(UpsertedId(rows, nextId, e), e, now))
      && |u| == |rows| + (if ExistingId(rows, e).Some? then 0 else 1)
      && (forall r :: r in rows && !SameTuple(r, e) ==> r in u)
      && (forall r :: r in u && !SameTuple(r, e) ==> r in rows)
  {
    var u := Upserted(rows, nextId, e, now);
    var id := UpsertedId(rows, nextId, e);
    var st := Stamp(id, e, now);
    if ExistingId(rows, e).Some? {
      UpsertExisting(rows, nextId, e, now);
      var i :| 0 <= i < |rows| && SameTuple(rows[i], e) && id == rows[i].id
               && u == rows[i := Stamp(rows[i].id, e, now)];
      UpdateAtEffect(rows, nextId, i, st);
      forall r | r in u && SameTuple(r, e) ensures r == st {
        if r != st {
          assert SameKey(r, rows[i]);
        }
      }
    } else {
      UpsertFresh(rows, nextId, e, now);
      AppendEffect(rows, nextId, st);
    }
  }

  /** Storing the same tuple twice leaves one record for it: the second store only overwrites. */
  lemma UpsertTwice(rows: seq<ZoomRecord>, nextId: nat, e: ZoomEntry, t1: int, t2: int)
    requires ValidTable(rows, nextId)
    ensures var u1 := Upserted(rows, nextId, e, t1);
            var n1 := NextIdAfter(rows, nextId, e);
      && ExistingId(u1, e).Some?
      && UpsertedId(u1, n1, e) == UpsertedId(rows, nextId, e)
      && NextIdAfter(u1, n1, e) == n1
      && |Upserted(u1, n1, e, t2)| == |u1|
  {
    var u1 := Upserted(rows, nextId, e, t1);
    var n1 := NextIdAfter(rows, nextId, e);
    UpsertEffect(rows, nextId, e, t1);
    var s := Stamp(UpsertedId(rows, nextId, e), e, t1);
    assert s in HostRecords(u1, e.host);
    var found := FirstTuple(HostRecords(u1, e.host), e).value;
    assert found in u1 && SameTuple(found, e);
    UpsertExisting(u1, n1, e, t2);
  }

  /** A record with its timestamp refreshed when it has the given id. */
  function Touched(r: ZoomRecord, id: nat, now: int): ZoomRecord
  {
    if r.id == id then r.(timestamp := now) else r
  }

  /** `updateTimestamp(id)` on a present id: that record's timestamp becomes `now`. */
  function Touch(rows: seq<ZoomRecord>, id: nat, now: int): (r: seq<ZoomRecord>)
  {
    seq(|rows|, i requires 0 <= i < |rows| => Touched(rows[i], id, now))
  }

  /** Touching distributes over the front element and over prefixes. */
  lemma TouchSplit(rows: seq<ZoomRecord>, id: nat, now: int)
    requires rows != []
    ensures Touch(rows, id, now) == [Touched(rows[0], id, now)] + Touch(rows[1..], id, now)
    ensures Touch(rows, id, now)[..|rows| - 1] == Touch(rows[..|rows| - 1], id, now)
    ensures Touch(rows, id, now)[|rows| - 1] == Touched(rows[|rows| - 1], id, now)
  {
  }

  /** Rewriting records in place without changing their ids or keys keeps the table valid. */
  lemma KeyPreservingValid(rows: seq<ZoomRecord>, t: seq<ZoomRecord>, nextId: nat)
    requires ValidTable(rows, nextId)
    requires |t| == |rows|
    requires forall i :: 0 <= i < |t| ==> t[i].id == rows[i].id && SameKey(t[i], rows[i])
    ensures ValidTable(t, nextId)
  {
    forall a, b | a in t && b in t && SameKey(a, b) ensures a == b {
      var i :| 0 <= i < |t| && t[i] == a;
      var j :| 0 <= j < |t| && t[j] == b;
      assert rows[i] in rows && rows[j] in rows && SameKey(rows[i], rows[j]);
      assert rows[i].id == rows[j].id;
    }
    forall r | r in t ensures 1 <= r.id < nextId {
      var i :| 0 <= i < |t| && t[i] == r;
      assert rows[i] in rows;
    }
  }

  /** A touch changes one record's timestamp and nothing else, and keeps the table valid. */
  lemma TouchEffect(rows: seq<ZoomRecord>, nextId: nat, id: nat, now: int)
    requires ValidTable(rows, nextId)
    ensures var t := Touch(rows, id, now);
      && ValidTable(t, nextId)
      && |t| == |rows|
      && (forall i :: 0 <= i < |rows| && rows[i].id != id ==> t[i] == rows[i])
      && (forall i :: 0 <= i < |rows| && rows[i].id == id ==> t[i] == rows[i].(timestamp := now))
  {
    KeyPreservingValid(rows, Touch(rows, id, now), nextId);
  }

  /** Deleting a record right after touching it is the same as deleting it. */
  lemma {:induction false} DeleteAfterTouch(rows: seq<ZoomRecord>, id: nat, now: int)
    ensures WithoutId(Touch(rows, id, now), id) == WithoutId(rows, id)
  {
    if rows != [] {
      DeleteAfterTouch(rows[1..], id, now);
      TouchSplit(rows, id, now);
    }
  }

  // ---------------------------------------------------------------------------
  // Oldest-first selection (findOldestZoomSettings)
  // ---------------------------------------------------------------------------

  /**
   * The next record a cursor over the timestamp index visits: a smallest timestamp, and of those
   * the first in primary-key order.
   */
  function MinIndex(rows: seq<ZoomRecord>): (k: nat)
    requires |rows| > 0
    ensures k < |rows|
  {
    if |rows| == 1 then 0
    else
      var k := MinIndex(rows[1..]) + 1;
      if rows[0].timestamp <= rows[k].timestamp then 0 else k
  }

  /** The cursor's next record has the smallest timestamp, and every earlier record a larger one. */
  lemma {:induction false} MinIndexIsFirstMinimum(rows: seq<ZoomRecord>)
    requires |rows| > 0
    ensures forall j :: 0 <= j < |rows| ==> rows[MinIndex(rows)].timestamp <= rows[j].timestamp
    ensures forall j :: 0 <= j < MinIndex(rows) ==> rows[j].timestamp > rows[MinIndex(rows)].timestamp
  {
    if |rows| > 1 {
      MinIndexIsFirstMinimum(rows[1..]);
      assert forall j :: 1 <= j < |rows| ==> rows[j] == rows[1..][j - 1];
    }
  }

  function RemoveAt(rows: seq<ZoomRecord>, k: nat): (r: seq<ZoomRecord>)
    requires k < |rows|
    ensures |r| == |rows| - 1
  {
    rows[..k] + rows[k + 1..]
  }

  lemma RemoveAtIndex(rows: seq<ZoomRecord>, k: nat)
    requires k < |rows|
    ensures forall i :: 0 <= i < k ==> RemoveAt(rows, k)[i] == rows[i]
    ensures forall i :: k <= i < |rows| - 1 ==> RemoveAt(rows, k)[i] == rows[i + 1]
  {
  }

  /** Removing one row yields only rows of the table. */
  lemma RemoveAtSubset(rows: seq<ZoomRecord>, k: nat)
    requires k < |rows|
    ensures forall x :: x in RemoveAt(rows, k) ==> x in rows
  {
    var r := RemoveAt(rows, k);
    RemoveAtIndex(rows, k);
    forall x | x in r ensures x in rows {
      var i :| 0 <= i < |r| && r[i] == x;
      if i < k { assert rows[i] == x; } else { assert rows[i + 1] == x; }
    }
  }

  /** Removing one row keeps every other row. */
  lemma RemoveAtKeeps(rows: seq<ZoomRecord>, k: nat)
    requires k < |rows|
    ensures forall x :: x in rows && x != rows[k] ==> x in RemoveAt(rows, k)
  {
    var r := RemoveAt(rows, k);
    RemoveAtIndex(rows, k);
    forall x | x in rows && x != rows[k] ensures x in r {
      var i :| 0 <= i < |rows| && rows[i] == x;
      if i < k { assert r[i] == x; } else { assert r[i - 1] == x; }
    }
  }

  /** Removing one row of an id-ordered table keeps the order and drops that row's id. */
  lemma RemoveAtIds(rows: seq<ZoomRecord>, k: nat)
    requires k < |rows| && IdsIncreasing(rows)
    ensures IdsIncreasing(RemoveAt(rows, k))
    ensures forall x :: x in RemoveAt(rows, k) ==> x.id != rows[k].id
  {
    var r := RemoveAt(rows, k);
    RemoveAtIndex(rows, k);
    forall i, j | 0 <= i < j < |r| ensures r[i].id < r[j].id {
      var i' := if i < k then i else i + 1;
      var j' := if j < k then j else j + 1;
      assert r[i] == rows[i'] && r[j] == rows[j'];
    }
    forall x | x in r ensures x.id != rows[k].id {
      var i :| 0 <= i < |r| && r[i] == x;
      if i < k { assert rows[i] == x; } else { assert rows[i + 1] == x; }
    }
  }

  /** All of the above at once. */
  lemma RemoveAtMembers(rows: seq<ZoomRecord>, k: nat)
    requires k < |rows|
    ensures forall x :: x in RemoveAt(rows, k) ==> x in rows
    ensures forall x :: x in rows && x != rows[k] ==> x in RemoveAt(rows, k)
    ensures IdsIncreasing(rows) ==> IdsIncreasing(RemoveAt(rows, k))
    ensures IdsIncreasing(rows) ==> forall x :: x in RemoveAt(rows, k) ==> x.id != rows[k].id
  {
    RemoveAtSubset(rows, k);
    RemoveAtKeeps(rows, k);
    if IdsIncreasing(rows) {
      RemoveAtIds(rows, k);
    }
  }

  /** The first minimum, stated over the members of the table. */
  lemma MinIndexIsMin(rows: seq<ZoomRecord>)
    requires |rows| > 0
    ensures forall x :: x in rows ==> rows[MinIndex(rows)].timestamp <= x.timestamp
  {
    MinIndexIsFirstMinimum(rows);
    forall x | x in rows ensures rows[MinIndex(rows)].timestamp <= x.timestamp {
      var j :| 0 <= j < |rows| && rows[j] == x;
    }
  }

  function Min(a: int, b: int): int
  {
    if a <= b then a else b
  }

  function Max(a: int, b: int): int
  {
    if a >= b then a else b
  }

  /** The first `limit` records a cursor over the timestamp index visits. */
  function SelectOldest(rows: seq<ZoomRecord>, limit: int): seq<ZoomRecord>
    decreases |rows|
  {
    if limit <= 0 || rows == [] then []
    else
      var k := MinIndex(rows);
      [rows[k]] + SelectOldest(RemoveAt(rows, k), limit - 1)
  }

  lemma SelectOldestStep(rows: seq<ZoomRecord>, limit: int)
    requires limit > 0 && rows != []
    ensures SelectOldest(rows, limit)
      == [rows[MinIndex(rows)]] + SelectOldest(RemoveAt(rows, MinIndex(rows)), limit - 1)
  {
  }

  /** One step of the cursor: the next record visited is the next one selected. */
  lemma CursorStep(results: seq<ZoomRecord>, unvisited: seq<ZoomRecord>, limit: int)
    requires |results| < limit && unvisited != []
    ensures var k := MinIndex(unvisited);
      results + SelectOldest(unvisited, limit - |results|)
      == (results + [unvisited[k]]) + SelectOldest(RemoveAt(unvisited, k), limit - |results + [unvisited[k]]|)
  {
    var k := MinIndex(unvisited);
    SelectOldestStep(unvisited, limit - |results|);
    assert |results + [unvisited[k]]| == |results| + 1;
  }

  /** min(limit, count) records, all taken from the table. */
  lemma {:induction false} SelectOldestSize(rows: seq<ZoomRecord>, limit: int)
    ensures |SelectOldest(rows, limit)| == Min(Max(limit, 0), |rows|)
    ensures forall s :: s in SelectOldest(rows, limit) ==> s in rows
    decreases |rows|
  {
    if limit > 0 && rows != [] {
      var k := MinIndex(rows);
      SelectOldestSize(RemoveAt(rows, k), limit - 1);
      RemoveAtMembers(rows, k);
    }
  }

  /** No record is selected twice: the selected ids are pairwise distinct. */
  predicate DistinctIds(s: seq<ZoomRecord>)
  {
    forall i, j :: 0 <= i < j < |s| ==> s[i].id != s[j].id
  }

  lemma PrependDistinct(x: ZoomRecord, rest: seq<ZoomRecord>)
    requires DistinctIds(rest)
    requires forall r :: r in rest ==> x.id != r.id
    ensures DistinctIds([x] + rest)
  {
    var s := [x] + rest;
    forall i, j | 0 <= i < j < |s| ensures s[i].id != s[j].id {
      assert s[j] == rest[j - 1];
      if i > 0 { assert s[i] == rest[i - 1]; }
    }
  }

  /** No record is selected twice: the selected ids are pairwise distinct. */
  lemma {:induction false} SelectOldestDistinct(rows: seq<ZoomRecord>, limit: int)
    requires IdsIncreasing(rows)
    ensures DistinctIds(SelectOldest(rows, limit))
    decreases |rows|
  {
    if limit > 0 && rows != [] {
      var k := MinIndex(rows);
      var rest := RemoveAt(rows, k);
      var tail := SelectOldest(rest, limit - 1);
      SelectOldestStep(rows, limit);
      RemoveAtIds(rows, k);
      SelectOldestDistinct(rest, limit - 1);
      SelectOldestSize(rest, limit - 1);
      PrependDistinct(rows[k], tail);
    }
  }

  predicate SortedByTime(s: seq<ZoomRecord>)
  {
    forall i, j :: 0 <= i < j < |s| ==> s[i].timestamp <= s[j].timestamp
  }

  lemma PrependSorted(x: ZoomRecord, rest: seq<ZoomRecord>)
    requires SortedByTime(rest)
    requires forall r :: r in rest ==> x.timestamp <= r.timestamp
    ensures SortedByTime([x] + rest)
  {
    var s := [x] + rest;
    forall i, j | 0 <= i < j < |s| ensures s[i].timestamp <= s[j].timestamp {
      assert s[j] == rest[j - 1];
      if i > 0 { assert s[i] == rest[i - 1]; }
    }
  }

  /** The selection comes out in ascending timestamp order. */
  lemma {:induction false} SelectOldestSorted(rows: seq<ZoomRecord>, limit: int)
    ensures SortedByTime(SelectOldest(rows, limit))
    decreases |rows|
  {
    if limit > 0 && rows != [] {
      var k := MinIndex(rows);
      var rest := RemoveAt(rows, k);
      var tail := SelectOldest(rest, limit - 1);
      SelectOldestSorted(rest, limit - 1);
      SelectOldestSize(rest, limit - 1);
      RemoveAtSubset(rows, k);
      MinIndexIsMin(rows);
      PrependSorted(rows[k], tail);
    }
  }

  /** Ascending timestamp order, and ascending id order among equal timestamps. */
  predicate SortedByTimeThenId(s: seq<ZoomRecord>)
  {
    forall i, j :: 0 <= i < j < |s| ==> Precedes(s[i], s[j])
  }

  /** The order of the timestamp index: by timestamp, ties broken by primary key. */
  predicate Precedes(a: ZoomRecord, b: ZoomRecord)
  {
    a.timestamp < b.timestamp || (a.timestamp == b.timestamp && a.id < b.id)
  }

  /** In an id-ordered table, the cursor's next record precedes every other row in index order. */
  lemma MinIndexPrecedesRest(rows: seq<ZoomRecord>)
    requires |rows| > 0 && IdsIncreasing(rows)
    ensures forall x :: x in RemoveAt(rows, MinIndex(rows)) ==> Precedes(rows[MinIndex(rows)], x)
  {
    var k := MinIndex(rows);
    var r := RemoveAt(rows, k);
    MinIndexIsFirstMinimum(rows);
    RemoveAtIndex(rows, k);
    forall x | x in r ensures Precedes(rows[k], x) {
      var i :| 0 <= i < |r| && r[i] == x;
      if i < k {
        assert rows[i] == x;
      } else {
        assert rows[i + 1] == x;
      }
    }
  }

  lemma PrependSortedThenId(x: ZoomRecord, rest: seq<ZoomRecord>)
    requires SortedByTimeThenId(rest)
    requires forall r :: r in rest ==> Precedes(x, r)
    ensures SortedByTimeThenId([x] + rest)
  {
    var s := [x] + rest;
    forall i, j | 0 <= i < j < |s| ensures Precedes(s[i], s[j]) {
      assert s[j] == rest[j - 1];
      if i > 0 { assert s[i] == rest[i - 1]; }
    }
  }

  /**
   * In an id-ordered table the selection follows the timestamp index exactly: ascending
   * timestamps, and records with equal timestamps in primary-key order.
   */
  lemma {:induction false} SelectOldestTieOrder(rows: seq<ZoomRecord>, limit: int)
    requires IdsIncreasing(rows)
    ensures SortedByTimeThenId(SelectOldest(rows, limit))
    decreases |rows|
  {
    if limit > 0 && rows != [] {
      var k := MinIndex(rows);
      var rest := RemoveAt(rows, k);
      var tail := SelectOldest(rest, limit - 1);
      SelectOldestStep(rows, limit);
      RemoveAtIds(rows, k);
      SelectOldestTieOrder(rest, limit - 1);
      SelectOldestSize(rest, limit - 1);
      MinIndexPrecedesRest(rows);
      PrependSortedThenId(rows[k], tail);
    }
  }

  /** Every selected record is at least as old as every record left out. */
  lemma {:induction false} SelectOldestAreOldest(rows: seq<ZoomRecord>, limit: int)
    ensures forall s, r :: s in SelectOldest(rows, limit) && r in rows && r !in SelectOldest(rows, limit)
              ==> s.timestamp <= r.timestamp
    decreases |rows|
  {
    if limit > 0 && rows != [] {
      var k := MinIndex(rows);
      var rest := RemoveAt(rows, k);
      var tail := SelectOldest(rest, limit - 1);
      SelectOldestStep(rows, limit);
      SelectOldestAreOldest(rest, limit - 1);
      RemoveAtKeeps(rows, k);
      MinIndexIsMin(rows);
      forall s, r | s in [rows[k]] + tail && r in rows && r !in [rows[k]] + tail
        ensures s.timestamp <= r.timestamp
      {
        assert r in rest && r !in tail;
        if s != rows[k] {
          assert s in tail;
        }
      }
    }
  }

  // ---------------------------------------------------------------------------
  // Purging (purgeOldestEntries) and the limit check (checkAndEnforceStorageLimit)
  // ---------------------------------------------------------------------------

  /** `Math.max(1, Math.floor(total * percentage / 100))`, and 0 for an empty store. */
  function PurgeCount(total: nat, percentage: int): (n: nat)
    ensures total == 0 ==> n == 0
    ensures total > 0 && 1 <= percentage <= 100 ==> 1 <= n <= total
    // the floor of the percentage, raised to 1
    ensures total > 0 ==> (n == 1 <==> total * percentage < 200)
    ensures total > 0 && total * percentage >= 100 ==> n * 100 <= total * percentage < n * 100 + 100
  {
    if total == 0 then 0 else Max(1, (total * percentage) / 100)
  }

  /** The count is floored, not rounded up: 10% of 101 records is 10. */
  lemma PurgeCountIsFloored()
    ensures PurgeCount(101, 10) == 10
    ensures PurgeCount(9, 10) == 1
  {
  }

  /** The rows after deleting each of `sel` by id, front to back. */
  function DeleteAll(rows: seq<ZoomRecord>, sel: seq<ZoomRecord>): seq<ZoomRecord>
  {
    if sel == [] then rows else WithoutId(DeleteAll(rows, sel[..|sel| - 1]), sel[|sel| - 1].id)
  }

  lemma DeleteAllStep(rows: seq<ZoomRecord>, sel: seq<ZoomRecord>, i: nat)
    requires i < |sel|
    ensures DeleteAll(rows, sel[..i + 1]) == WithoutId(DeleteAll(rows, sel[..i]), sel[i].id)
  {
    assert sel[..i + 1][..i] == sel[..i];
  }

  /**
   * Deleting distinct records of the table one by one keeps exactly the records whose id was not
   * deleted, in order, and removes one record per deletion.
   */
  lemma {:induction false} DeleteAllEffect(rows: seq<ZoomRecord>, nextId: nat, sel: seq<ZoomRecord>)
    requires ValidTable(rows, nextId)
    requires forall s :: s in sel ==> s in rows
    requires DistinctIds(sel)
    ensures ValidTable(DeleteAll(rows, sel), nextId)
    ensures |DeleteAll(rows, sel)| == |rows| - |sel|
    ensures forall x :: x in DeleteAll(rows, sel) <==> x in rows && x !in sel
  {
    if sel != [] {
      var n := |sel| - 1;
      var front, last := sel[..n], sel[n];
      assert sel == front + [last];
      assert forall s :: s in sel <==> s in front || s == last;
      assert DistinctIds(front) by {
        forall i, j | 0 <= i < j < |front| ensures front[i].id != front[j].id {
          assert front[i] == sel[i] && front[j] == sel[j];
        }
      }
      DeleteAllEffect(rows, nextId, front);
      var d := DeleteAll(rows, front);
      assert last !in front by {
        forall i | 0 <= i < n ensures front[i] != last {
          assert front[i] == sel[i];
        }
      }
      assert last in d;
      WithoutIdCount(d, last.id);
      WithoutIdValid(d, nextId, last.id);
      WithoutIdMembers(d, last.id);
      forall x | x in rows && x.id == last.id ensures x == last {
        IdDetermines(rows, x, last);
      }
    }
  }

  /** The rows after `purgeOldestEntries(percentage)` with a valid percentage. */
  function PurgedRows(rows: seq<ZoomRecord>, percentage: int): seq<ZoomRecord>
  {
    DeleteAll(rows, SelectOldest(rows, PurgeCount(|rows|, percentage)))
  }

  /**
   * A purge removes PurgeCount records, all of them from the table and none newer than any
   * record it keeps, and the table stays valid.
   */
  lemma PurgeEffect(rows: seq<ZoomRecord>, nextId: nat, percentage: int)
    requires ValidTable(rows, nextId)
    requires 1 <= percentage <= 100
    ensures var after := PurgedRows(rows, percentage);
      && ValidTable(after, nextId)
      && PurgeCount(|rows|, percentage) <= |rows|
      && |after| == |rows| - PurgeCount(|rows|, percentage)
      && (forall r :: r in after ==> r in rows)
      && (forall r, s :: r in rows && r !in after && s in after ==> r.timestamp <= s.timestamp)
  {
    var n := PurgeCount(|rows|, percentage);
    var sel := SelectOldest(rows, n);
    SelectOldestSize(rows, n);
    SelectOldestDistinct(rows, n);
    SelectOldestAreOldest(rows, n);
    DeleteAllEffect(rows, nextId, sel);
  }

  /** The rows after `checkAndEnforceStorageLimit` with the given settings. */
  function Enforced(rows: seq<ZoomRecord>, storageLimit: int, percentage: int): seq<ZoomRecord>
  {
    if |rows| > storageLimit && 1 <= percentage <= 100 then PurgedRows(rows, percentage) else rows
  }

  /**
   * A check run after each single insertion keeps the count at or below the limit: one record
   * over the limit is always purged.
   */
  lemma EnforceAfterOneInsert(rows: seq<ZoomRecord>, nextId: nat, storageLimit: int, percentage: int)
    requires ValidTable(rows, nextId)
    requires 1 <= percentage <= 100
    requires 0 <= storageLimit && |rows| <= storageLimit + 1
    ensures |Enforced(rows, storageLimit, percentage)| <= storageLimit
  {
    if |rows| > storageLimit {
      PurgeEffect(rows, nextId, percentage);
    }
  }

  /** One check does not bring a table far over the limit back under it: 200 rows, limit 100, 10%. */
  lemma EnforceMayStayOverLimit(rows: seq<ZoomRecord>, nextId: nat)
    requires ValidTable(rows, nextId)
    requires |rows| == 200
    ensures |Enforced(rows, 100, 10)| == 180
  {
    PurgeEffect(rows, nextId, 10);
  }

  // ---------------------------------------------------------------------------
  // The store
  // ---------------------------------------------------------------------------

  class ZoomStore {
    /** The object store's records in primary-key order. */
    var rows: seq<ZoomRecord>
    /** The key generator: the id the next `add` receives. */
    var nextId: nat

    ghost predicate Valid()
      reads this
    {
      ValidTable(rows, nextId)
    }

    /** A freshly created object store: empty, ids starting at 1. */
    constructor ()
      ensures Valid() && rows == [] && nextId == 1
    {
      rows := [];
      nextId := 1;
    }

    /** `index('host').getAll(host)`. */
    method FindZoomSettingsByHost(host: string) returns (records: seq<ZoomRecord>)
      requires Valid()
      ensures records == HostRecords(rows, host)
      ensures forall r :: r in records <==> r in rows && r.host == host
      ensures IdsIncreasing(records)
    {
      records := HostRecords(rows, host);
    }

    method StoreZoomSetting(data: ZoomEntry, now: int) returns (id: nat)
      requires Valid()
      modifies this
      ensures Valid()
      ensures rows == Upserted(old(rows), old(nextId), data, now)
      ensures nextId == NextIdAfter(old(rows), old(nextId), data)
      ensures id == UpsertedId(old(rows), old(nextId), data)
    {
      var matches := FindZoomSettingsByHost(data.host);
      var existing: Option<ZoomRecord> := None;
      var i := 0;
      while i < |matches|
        invariant 0 <= i <= |matches|
        invariant existing.None? ==> FirstTuple(matches, data) == FirstTuple(matches[i..], data)
        invariant existing.Some? ==> existing == FirstTuple(matches, data)
      {
        assert matches[i..][1..] == matches[i + 1..];
        if SameTuple(matches[i], data) {
          existing := Some(matches[i]);
          break;
        }
        i := i + 1;
      }
      UpsertEffect(rows, nextId, data, now);
      if existing.Some? {
        id := existing.value.id;
        rows := Replace(rows, Stamp(id, data, now));
      } else {
        id := nextId;
        rows := rows + [Stamp(id, data, now)];
        nextId := nextId + 1;
      }
    }

    method UpdateTimestamp(id: nat, now: int) returns (res: Outcome<string>)
      requires Valid()
      modifies this
      ensures Valid() && nextId == old(nextId)
      ensures !HasId(old(rows), id) ==> res == Fail(NotFoundError) && rows == old(rows)
      ensures HasId(old(rows), id) ==> res == Pass && rows == Touch(old(rows), id, now)
    {
      if HasId(rows, id) {
        TouchEffect(rows, nextId, id, now);
        rows := Touch(rows, id, now);
        res := Pass;
      } else {
        res := Fail(NotFoundError);
      }
    }

    method GetAllZoomSettings() returns (all: seq<ZoomRecord>)
      requires Valid()
      ensures all == rows
      ensures IdsIncreasing(all)
    {
      all := rows;
    }

    method RemoveZoomSetting(id: nat)
      requires Valid()
      modifies this
      ensures Valid() && nextId == old(nextId)
      ensures rows == WithoutId(old(rows), id)
    {
      WithoutIdValid(rows, nextId, id);
      rows := WithoutId(rows, id);
    }

    /** `store.clear()`: the key generator is not reset. */
    method ClearAllZoomSettings()
      requires Valid()
      modifies this
      ensures Valid() && rows == [] && nextId == old(nextId)
    {
      rows := [];
    }

    method GetZoomSettingsCount() returns (count: nat)
      ensures count == |rows|
    {
      count := |rows|;
    }

    /** A cursor over the timestamp index, stopped after `limit` records. */
    method FindOldestZoomSettings(limit: int) returns (results: seq<ZoomRecord>)
      ensures results == SelectOldest(rows, limit)
    {
      results := [];
      var unvisited := rows;
      while |results| < limit && unvisited != []
        invariant results + SelectOldest(unvisited, limit - |results|) == SelectOldest(rows, limit)
        decreases |unvisited|
      {
        var k := MinIndex(unvisited);
        CursorStep(results, unvisited, limit);
        results := results + [unvisited[k]];
        unvisited := RemoveAt(unvisited, k);
      }
      assert SelectOldest(unvisited, limit - |results|) == [];
    }

    method CountRecentlyUsedZoomSettings(days: int, now: int) returns (count: nat)
      requires Valid()
      ensures count == |RecentRecords(rows, now - days * MillisPerDay)|
      // the number of distinct records stamped at or after the cutoff
      ensures count == |RecentSet(rows, now - days * MillisPerDay)|
      ensures count <= |rows|
    {
      var cutoffTime := now - days * MillisPerDay;
      count := |RecentRecords(rows, cutoffTime)|;
      RecentRecordsCount(rows, cutoffTime);
    }

    method CountUniqueHosts() returns (count: nat)
      requires Valid()
      ensures count == |HostsOf(rows)|
      ensures count <= |rows|
    {
      var allRecords := GetAllZoomSettings();
      var uniqueHosts: set<string> := {};
      for i := 0 to |allRecords|
        invariant uniqueHosts == HostsOf(allRecords[..i])
      {
        assert allRecords[..i + 1][..i] == allRecords[..i];
        uniqueHosts := uniqueHosts + {allRecords[i].host};
      }
      assert allRecords[..|allRecords|] == allRecords;
      HostsOfFacts(allRecords);
      count := |uniqueHosts|;
    }

    method GetDatabaseMetrics(now: int) returns (metrics: Metrics)
      requires Valid()
      ensures metrics.totalEntries == |rows|
      ensures metrics.uniqueHosts == |HostsOf(rows)| <= |rows|
      ensures metrics.recentEntries == |RecentRecords(rows, now - RecentDays * MillisPerDay)| <= |rows|
      ensures metrics.recentEntries == |RecentSet(rows, now - RecentDays * MillisPerDay)|
    {
      var totalCount := GetZoomSettingsCount();
      var recentCount := CountRecentlyUsedZoomSettings(RecentDays, now);
      var uniqueHostsCount := CountUniqueHosts();
      metrics := Metrics(totalCount, uniqueHostsCount, recentCount);
    }

    method PurgeOldestEntries(percentage: int) returns (res: Result<nat, string>)
      requires Valid()
      modifies this
      ensures Valid() && nextId == old(nextId)
      // an out-of-range percentage is rejected before the store is touched
      ensures !(1 <= percentage <= 100) ==> res == Failure(PercentageError) && rows == old(rows)
      ensures 1 <= percentage <= 100 ==>
        && res == Success(PurgeCount(|old(rows)|, percentage))
        && rows == PurgedRows(old(rows), percentage)
    {
      if percentage <= 0 || percentage > 100 {
        return Failure(PercentageError);
      }
      var totalCount := GetZoomSettingsCount();
      if totalCount == 0 {
        assert SelectOldest(rows, 0) == [];
        return Success(0);
      }
      var purgingCount := Max(1, (totalCount * percentage) / 100);
      assert purgingCount == PurgeCount(totalCount, percentage) <= totalCount;
      var oldestEntries := FindOldestZoomSettings(purgingCount);
      ghost var before := rows;
      var deletedCount: nat := 0;
      while deletedCount < |oldestEntries|
        invariant deletedCount <= |oldestEntries|
        invariant rows == DeleteAll(before, oldestEntries[..deletedCount])
        invariant Valid() && nextId == old(nextId)
      {
        DeleteAllStep(before, oldestEntries, deletedCount);
        RemoveZoomSetting(oldestEntries[deletedCount].id);
        deletedCount := deletedCount + 1;
      }
      assert oldestEntries[..deletedCount] == oldestEntries;
      SelectOldestSize(before, purgingCount);
      return Success(deletedCount);
    }

    method CheckAndEnforceStorageLimit(storageLimit: int, purgePercentage: int) returns (res: Result<bool, string>)
      requires Valid()
      modifies this
      ensures Valid() && nextId == old(nextId)
      ensures rows == Enforced(old(rows), storageLimit, purgePercentage)
      // no purge at or under the limit
      ensures |old(rows)| <= storageLimit ==> res == Success(false) && rows == old(rows)
      // over the limit: one purge, or the purge's rejection when the percentage is out of range
      ensures |old(rows)| > storageLimit && 1 <= purgePercentage <= 100 ==> res == Success(true)
      ensures |old(rows)| > storageLimit && !(1 <= purgePercentage <= 100) ==> res == Failure(PercentageError)
    {
      var currentCount := GetZoomSettingsCount();
      if currentCount > storageLimit {
        var purged := PurgeOldestEntries(purgePercentage);
        if purged.Failure? {
          return Failure(purged.error);
        }
        return Success(true);
      }
      return Success(false);
    }
  }
}
