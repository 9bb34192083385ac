/**
 * The durable element store, reduced to its read/write contract: rows keyed
 * by a store-assigned identity, an insert that hands out the next identity,
 * an update that rewrites one row, and the ordered query used to hydrate a
 * session. `saveFails` and `queryFails` say whether the next write or the
 * next query raises instead of completing.
 */
module ElementStore {
  import opened Drawing
  import opened SessionHistory

  /** Every row carries the identity it is stored under. */
  predicate SelfKeyed(rows: map<int, DrawingElement>)
  {
    forall k :: k in rows ==> rows[k].id == k
  }

  /** Rows are self-keyed, and every identity handed out so far is below `nextId`. */
  predicate Keyed(rows: map<int, DrawingElement>, nextId: int)
  {
    1 <= nextId && SelfKeyed(rows) && forall k :: k in rows ==> 1 <= k < nextId
  }

  predicate SortedByCreatedAt(s: seq<DrawingElement>)
  {
    forall i, j :: 0 <= i < j < |s| ==> s[i].createdAt <= s[j].createdAt
  }

  /** The active rows of session `sid` with identity in [lo, hi), by ascending identity. */
  function ActiveRows(rows: map<int, DrawingElement>, sid: string, lo: int, hi: int): seq<DrawingElement>
    decreases hi - lo
  {
    if hi <= lo then []
    else if lo in rows && rows[lo].sessionId == sid && rows[lo].isActive then
      [rows[lo]] + ActiveRows(rows, sid, lo + 1, hi)
    else
      ActiveRows(rows, sid, lo + 1, hi)
  }

  /** Every row the scan yields is an active row of the session, as stored, within the range. */
  lemma {:induction false} ActiveRowsSound(rows: map<int, DrawingElement>, sid: string, lo: int, hi: int, i: int)
    requires SelfKeyed(rows)
    requires 0 <= i < |ActiveRows(rows, sid, lo, hi)|
    ensures var e := ActiveRows(rows, sid, lo, hi)[i];
      lo <= e.id < hi && e.id in rows && rows[e.id] == e && e.sessionId == sid && e.isActive
    decreases hi - lo
  {
    if lo < hi {
      if lo in rows && rows[lo].sessionId == sid && rows[lo].isActive {
        if i > 0 { ActiveRowsSound(rows, sid, lo + 1, hi, i - 1); }
      } else {
        ActiveRowsSound(rows, sid, lo + 1, hi, i);
      }
    }
  }

  /** The scan yields rows by strictly increasing identity. */
  lemma {:induction false} ActiveRowsIncreasing(rows: map<int, DrawingElement>, sid: string, lo: int, hi: int)
    requires SelfKeyed(rows)
    ensures forall i, j :: 0 <= i < j < |ActiveRows(rows, sid, lo, hi)| ==>
      ActiveRows(rows, sid, lo, hi)[i].id < ActiveRows(rows, sid, lo, hi)[j].id
    decreases hi - lo
  {
    if lo < hi {
      var rest := ActiveRows(rows, sid, lo + 1, hi);
      ActiveRowsIncreasing(rows, sid, lo + 1, hi);
      if lo in rows && rows[lo].sessionId == sid && rows[lo].isActive {
        forall j | 0 <= j < |rest| ensures lo < rest[j].id {
          ActiveRowsSound(rows, sid, lo + 1, hi, j);
        }
      }
    }
  }

  /** Every active row of the session within the range is yielded by the scan. */
  lemma {:induction false} ActiveRowsComplete(rows: map<int, DrawingElement>, sid: string, lo: int, hi: int, k: int)
    requires k in rows && lo <= k < hi && rows[k].sessionId == sid && rows[k].isActive
    ensures rows[k] in ActiveRows(rows, sid, lo, hi)
    decreases hi - lo
  {
    if k != lo {
      ActiveRowsComplete(rows, sid, lo + 1, hi, k);
    }
  }

  /** Places `e` before the first element that is not older than it. */
  function InsertByCreatedAt(e: DrawingElement, s: seq<DrawingElement>): (r: seq<DrawingElement>)
    ensures multiset(r) == multiset(s) + multiset{e}
  {
    if s == [] || e.createdAt <= s[0].createdAt then
      [e] + s
    else
      assert s == [s[0]] + s[1..];
      [s[0]] + InsertByCreatedAt(e, s[1..])
  }

  /** A stable insertion sort on the creation timestamp. */
  function SortByCreatedAt(s: seq<DrawingElement>): (r: seq<DrawingElement>)
    ensures multiset(r) == multiset(s)
  {
    if s == [] then []
    else
      assert s == [s[0]] + s[1..];
      InsertByCreatedAt(s[0], SortByCreatedAt(s[1..]))
  }

  lemma SameMembers(a: seq<DrawingElement>, b: seq<DrawingElement>)
    requires multiset(a) == multiset(b)
    ensures forall x :: x in a <==> x in b
  {
    forall x ensures x in a <==> x in b {
      assert x in a <==> x in multiset(a);
      assert x in b <==> x in multiset(b);
    }
  }

  lemma {:induction false} InsertKeepsOrder(e: DrawingElement, s: seq<DrawingElement>)
    requires SortedByCreatedAt(s)
    ensures SortedByCreatedAt(InsertByCreatedAt(e, s))
  {
    if s != [] && e.createdAt > s[0].createdAt {
      var rest := InsertByCreatedAt(e, s[1..]);
      InsertKeepsOrder(e, s[1..]);
      assert s == [s[0]] + s[1..];
      SameMembers(rest, s[1..] + [e]);
      forall j | 0 <= j < |rest| ensures s[0].createdAt <= rest[j].createdAt {
        assert rest[j] in s[1..] + [e];
      }
    }
  }

  lemma {:induction false} InsertKeepsIdsDistinct(e: DrawingElement, s: seq<DrawingElement>)
    requires DistinctIds(s)
    requires forall i :: 0 <= i < |s| ==> s[i].id != e.id
    ensures DistinctIds(InsertByCreatedAt(e, s))
  {
    if s != [] && e.createdAt > s[0].createdAt {
      var rest := InsertByCreatedAt(e, s[1..]);
      InsertKeepsIdsDistinct(e, s[1..]);
      SameMembers(rest, s[1..] + [e]);
      forall j | 0 <= j < |rest| ensures s[0].id != rest[j].id {
        assert rest[j] in s[1..] + [e];
      }
      assert InsertByCreatedAt(e, s) == [s[0]] + rest;
    }
  }

  /** The sort orders by creation time, oldest first. */
  lemma {:induction false} SortIsSorted(s: seq<DrawingElement>)
    ensures SortedByCreatedAt(SortByCreatedAt(s))
  {
    if s != [] {
      SortIsSorted(s[1..]);
      InsertKeepsOrder(s[0], SortByCreatedAt(s[1..]));
    }
  }

  lemma {:induction false} SortKeepsIdsDistinct(s: seq<DrawingElement>)
    requires DistinctIds(s)
    ensures DistinctIds(SortByCreatedAt(s))
  {
    if s != [] {
      var rest := SortByCreatedAt(s[1..]);
      SortKeepsIdsDistinct(s[1..]);
      SameMembers(rest, s[1..]);
      forall i | 0 <= i < |rest| ensures rest[i].id != s[0].id {
        assert rest[i] in s[1..];
      }
      InsertKeepsIdsDistinct(s[0], rest);
    }
  }

  /** What hydration reads: the active elements of one session, oldest first. */
  function ActiveOrdered(rows: map<int, DrawingElement>, sid: string, nextId: int): (r: seq<DrawingElement>)
    requires Keyed(rows, nextId)
  {
    SortByCreatedAt(ActiveRows(rows, sid, 1, nextId))
  }

  /**
   * The hydration query returns exactly the active rows of the session,
   * each as stored, oldest first, without repeating an identity.
   */
  lemma ActiveOrderedSpec(rows: map<int, DrawingElement>, sid: string, nextId: int)
    requires Keyed(rows, nextId)
    ensures var r := ActiveOrdered(rows, sid, nextId);
      && SortedByCreatedAt(r) && DistinctIds(r)
      && (forall i :: 0 <= i < |r| ==>
            r[i].id in rows && rows[r[i].id] == r[i] && r[i].sessionId == sid && r[i].isActive)
      && (forall k :: k in rows && rows[k].sessionId == sid && rows[k].isActive ==> rows[k] in r)
  {
    var found := ActiveRows(rows, sid, 1, nextId);
    var r := SortByCreatedAt(found);
    forall i | 0 <= i < |found|
      ensures found[i].id in rows && rows[found[i].id] == found[i] && found[i].sessionId == sid && found[i].isActive
    {
      ActiveRowsSound(rows, sid, 1, nextId, i);
    }
    ActiveRowsIncreasing(rows, sid, 1, nextId);
    forall k | k in rows && rows[k].sessionId == sid && rows[k].isActive ensures rows[k] in found {
      ActiveRowsComplete(rows, sid, 1, nextId, k);
    }
    SortIsSorted(found);
    SortKeepsIdsDistinct(found);
    SameMembers(r, found);
    forall i | 0 <= i < |r|
      ensures r[i].id in rows && rows[r[i].id] == r[i] && r[i].sessionId == sid && r[i].isActive
    {
      assert r[i] in found;
      var j :| 0 <= j < |found| && found[j] == r[i];
    }
  }

  class Store {
    var rows: map<int, DrawingElement>
    var nextId: int
    var saveFails: bool
    var queryFails: bool

    ghost predicate Valid()
      reads this
    {
      Keyed(rows, nextId)
    }

    constructor ()
      ensures Valid() && rows == map[] && nextId == 1
      ensures !saveFails && !queryFails
    {
      rows, nextId := map[], 1;
      saveFails, queryFails := false, false;
    }

    /** Adds a row and reports the identity it was given; on a failing save nothing is written. */
    method Insert(e: DrawingElement) returns (ok: bool, id: int)
      requires Valid()
      modifies this`rows, this`nextId
      ensures Valid()
      ensures ok == !saveFails
      ensures ok ==> id == old(nextId) && id !in old(rows)
                     && rows == old(rows)[id := e.(id := id)] && nextId == old(nextId) + 1
      ensures !ok ==> rows == old(rows) && nextId == old(nextId)
    {
      ok := !saveFails;
      id := 0;
      if ok {
        id := nextId;
        rows := rows[id := e.(id := id)];
        nextId := nextId + 1;
      }
    }

    /** Rewrites the row of `e.id` with `e`; fails on a failing save or an unknown identity. */
    method Update(e: DrawingElement) returns (ok: bool)
      requires Valid()
      modifies this`rows
      ensures Valid()
      ensures ok == (!saveFails && e.id in old(rows))
      ensures rows == if ok then old(rows)[e.id := e] else old(rows)
    {
      ok := !saveFails && e.id in rows;
      if ok {
        rows := rows[e.id := e];
      }
    }

    /** The hydration query; on a failing query nothing is returned. */
    method QueryActiveOrdered(sid: string) returns (ok: bool, elements: seq<DrawingElement>)
      requires Valid()
      ensures ok == !queryFails
      ensures ok ==> elements == ActiveOrdered(rows, sid, nextId)
    {
      ok := !queryFails;
      elements := if ok then ActiveOrdered(rows, sid, nextId) else [];
    }
  }
}
