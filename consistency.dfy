/**
 * How a session's in-memory history relates to the store's rows.
 *
 * `Consistent` always holds: every element in memory belongs to the session
 * and is the record stored under its identity, up to the active flag.
 * `Synced` is the stronger agreement the design aims for between mutations:
 * memory and store agree on which elements are active and on every row's
 * contents, flags included. It says nothing about order; the order of the
 * active elements is the subject of the creation-order lemmas at the end. A
 * successful draw, undo or redo keeps `Synced`; an undo or redo whose save
 * fails breaks it.
 */
module Consistency {
  import opened Drawing
  import opened SessionHistory
  import opened ElementStore

  function Elements(h: History): seq<DrawingElement>
  {
    h.current + h.redo
  }

  predicate Consistent(rows: map<int, DrawingElement>, sid: string, h: History)
  {
    && WellFormed(h)
    && forall i :: 0 <= i < |Elements(h)| ==>
         && Elements(h)[i].sessionId == sid
         && Elements(h)[i].id in rows
         && SameRecord(rows[Elements(h)[i].id], Elements(h)[i])
  }

  predicate Synced(rows: map<int, DrawingElement>, sid: string, h: History)
  {
    && (forall i :: 0 <= i < |Elements(h)| ==>
          Elements(h)[i].id in rows && rows[Elements(h)[i].id] == Elements(h)[i])
    && (forall k :: k in rows && rows[k].sessionId == sid && rows[k].isActive ==> rows[k] in h.current)
  }

  /** A freshly hydrated session is consistent with, and in step with, the store. */
  lemma HydratedIsSynced(rows: map<int, DrawingElement>, sid: string, nextId: int)
    requires Keyed(rows, nextId)
    ensures Consistent(rows, sid, History(ActiveOrdered(rows, sid, nextId), []))
    ensures Synced(rows, sid, History(ActiveOrdered(rows, sid, nextId), []))
  {
    ActiveOrderedSpec(rows, sid, nextId);
    var h := History(ActiveOrdered(rows, sid, nextId), []);
    assert Elements(h) == h.current;
  }

  /**
   * Writing one record, either under a new identity or over a row of the same
   * record, leaves the consistency of any session intact.
   */
  lemma ConsistentUnderWrite(rows: map<int, DrawingElement>, sid: string, h: History, x: DrawingElement)
    requires Consistent(rows, sid, h)
    requires x.id !in rows || SameRecord(rows[x.id], x)
    ensures Consistent(rows[x.id := x], sid, h)
  {
  }

  /** A committed element with a fresh identity keeps the session consistent and in step. */
  lemma CommitKeepsAgreement(rows: map<int, DrawingElement>, sid: string, h: History, e: DrawingElement)
    requires Consistent(rows, sid, h)
    requires e.id !in rows && e.sessionId == sid && e.isActive
    ensures Consistent(rows[e.id := e], sid, Commit(h, e))
    ensures Synced(rows, sid, h) ==> Synced(rows[e.id := e], sid, Commit(h, e))
  {
    var c := Commit(h, e);
    assert Elements(c) == h.current + [e];
    forall i | 0 <= i < |h.current| ensures h.current[i].id != e.id {
      assert Elements(h)[i] == h.current[i];
    }
    CommitPreservesWellFormed(h, e);
    forall i | 0 <= i < |Elements(c)|
      ensures Elements(c)[i].sessionId == sid && Elements(c)[i].id in rows[e.id := e]
      ensures SameRecord(rows[e.id := e][Elements(c)[i].id], Elements(c)[i])
    {
      if i < |h.current| { assert Elements(c)[i] == Elements(h)[i]; }
    }
    if Synced(rows, sid, h) {
      forall i | 0 <= i < |Elements(c)|
        ensures Elements(c)[i].id in rows[e.id := e] && rows[e.id := e][Elements(c)[i].id] == Elements(c)[i]
      {
        if i < |h.current| { assert Elements(c)[i] == Elements(h)[i]; }
      }
      var rows' := rows[e.id := e];
      forall k | k in rows' && rows'[k].sessionId == sid && rows'[k].isActive
        ensures rows'[k] in c.current
      {
        if k != e.id { assert rows[k] in h.current; }
      }
    }
  }

  /** The element an undo flips: the newest active one, flagged inactive. */
  function Undone(h: History): DrawingElement
    requires CanUndo(h)
  {
    h.current[|h.current| - 1].(isActive := false)
  }

  /** The element a redo flips: the top of the redo stack, flagged active. */
  function Redone(h: History): DrawingElement
    requires CanRedo(h)
  {
    h.redo[|h.redo| - 1].(isActive := true)
  }

  /**
   * An undo keeps the session consistent whether or not its save goes
   * through; only a saved undo keeps memory and store in step, and an unsaved
   * one leaves the store still holding the undone element as active.
   */
  lemma UndoKeepsAgreement(rows: map<int, DrawingElement>, sid: string, h: History)
    requires SelfKeyed(rows) && Consistent(rows, sid, h) && CanUndo(h)
    ensures Consistent(rows, sid, UndoStep(h))
    ensures Consistent(rows[Undone(h).id := Undone(h)], sid, UndoStep(h))
    ensures Synced(rows, sid, h) ==> Synced(rows[Undone(h).id := Undone(h)], sid, UndoStep(h))
    ensures Synced(rows, sid, h) ==>
              && Undone(h).id in rows && rows[Undone(h).id].isActive
              && rows[Undone(h).id] !in UndoStep(h).current
              && !Synced(rows, sid, UndoStep(h))
  {
    var n := |h.current|;
    var x := Undone(h);
    var u := UndoStep(h);
    UndoPreservesWellFormed(h);
    assert Elements(h)[n - 1] == h.current[n - 1];
    // every element of u is an element of h, or the undone one
    forall i | 0 <= i < |Elements(u)|
      ensures Elements(u)[i].sessionId == sid && Elements(u)[i].id in rows
      ensures SameRecord(rows[Elements(u)[i].id], Elements(u)[i])
    {
      if i == |Elements(u)| - 1 {
        assert Elements(u)[i] == x;
      } else if i < n - 1 {
        assert Elements(u)[i] == Elements(h)[i];
      } else {
        assert Elements(u)[i] == Elements(h)[i + 1];
      }
    }
    ConsistentUnderWrite(rows, sid, u, x);
    if Synced(rows, sid, h) {
      var rows' := rows[x.id := x];
      forall i | 0 <= i < |Elements(u)|
        ensures Elements(u)[i].id in rows' && rows'[Elements(u)[i].id] == Elements(u)[i]
      {
        if i < n - 1 {
          assert Elements(u)[i] == Elements(h)[i];
          assert Elements(h)[i].id != Elements(h)[n - 1].id;
        } else if i < |Elements(u)| - 1 {
          assert Elements(u)[i] == Elements(h)[i + 1];
          assert Elements(h)[n - 1].id != Elements(h)[i + 1].id;
        } else {
          assert Elements(u)[i] == x;
        }
      }
      forall k | k in rows' && rows'[k].sessionId == sid && rows'[k].isActive
        ensures rows'[k] in u.current
      {
        assert rows[k] in h.current;
        var j :| 0 <= j < n && h.current[j] == rows[k];
        assert rows[k].id == k;
        assert h.current[n - 1].id == x.id;
        assert j < n - 1;
        assert u.current[j] == rows[k];
      }
      assert rows[x.id] == h.current[n - 1];
      forall j | 0 <= j < n - 1 ensures u.current[j] != rows[x.id] {
        assert Elements(h)[j].id != Elements(h)[n - 1].id;
      }
    }
  }

  /**
   * A redo keeps the session consistent whether or not its save goes through;
   * only a saved redo keeps memory and store in step.
   */
  lemma RedoKeepsAgreement(rows: map<int, DrawingElement>, sid: string, h: History)
    requires SelfKeyed(rows) && Consistent(rows, sid, h) && CanRedo(h)
    ensures Consistent(rows, sid, RedoStep(h))
    ensures Consistent(rows[Redone(h).id := Redone(h)], sid, RedoStep(h))
    ensures Synced(rows, sid, h) ==> Synced(rows[Redone(h).id := Redone(h)], sid, RedoStep(h))
  {
    var n := |h.current|;
    var m := |h.redo|;
    var y := Redone(h);
    var r := RedoStep(h);
    RedoPreservesWellFormed(h);
    assert Elements(h)[n + m - 1] == h.redo[m - 1];
    forall i | 0 <= i < |Elements(r)|
      ensures Elements(r)[i].sessionId == sid && Elements(r)[i].id in rows
      ensures SameRecord(rows[Elements(r)[i].id], Elements(r)[i])
    {
      if i == n {
        assert Elements(r)[i] == y;
      } else if i < n {
        assert Elements(r)[i] == Elements(h)[i];
      } else {
        assert Elements(r)[i] == Elements(h)[i - 1];
      }
    }
    ConsistentUnderWrite(rows, sid, r, y);
    if Synced(rows, sid, h) {
      var rows' := rows[y.id := y];
      forall i | 0 <= i < |Elements(r)|
        ensures Elements(r)[i].id in rows' && rows'[Elements(r)[i].id] == Elements(r)[i]
      {
        if i < n {
          assert Elements(r)[i] == Elements(h)[i];
          assert Elements(h)[i].id != Elements(h)[n + m - 1].id;
        } else if n < i {
          assert Elements(r)[i] == Elements(h)[i - 1];
          assert Elements(h)[i - 1].id != Elements(h)[n + m - 1].id;
        } else {
          assert Elements(r)[i] == y;
        }
      }
      forall k | k in rows' && rows'[k].sessionId == sid && rows'[k].isActive
        ensures rows'[k] in r.current
      {
        if k == y.id {
          assert r.current[n] == y;
        } else {
          assert rows[k] in h.current;
          var j :| 0 <= j < n && h.current[j] == rows[k];
          assert r.current[j] == rows[k];
        }
      }
    }
  }

  // ---------------------------------------------------------------- creation order

  /** No element of `s` was created after `t`. */
  predicate NotNewerThan(s: seq<DrawingElement>, t: int)
  {
    forall i :: 0 <= i < |s| ==> s[i].createdAt <= t
  }

  /** A freshly hydrated session's timeline is in creation order. */
  lemma HydratedIsOrdered(rows: map<int, DrawingElement>, sid: string, nextId: int)
    requires Keyed(rows, nextId)
    ensures SortedByCreatedAt(Timeline(History(ActiveOrdered(rows, sid, nextId), [])))
  {
    var h := History(ActiveOrdered(rows, sid, nextId), []);
    ActiveOrderedSpec(rows, sid, nextId);
    assert h.current + Reversed(h.redo) == h.current;
    FlaggedIdentity(h.current, true);
  }

  /** Undo and redo leave the creation order of the timeline as it was. */
  lemma OrderedUnderUndoRedo(h: History)
    ensures SortedByCreatedAt(Timeline(UndoStep(h))) == SortedByCreatedAt(Timeline(h))
    ensures SortedByCreatedAt(Timeline(RedoStep(h))) == SortedByCreatedAt(Timeline(h))
  {
    UndoKeepsTimeline(h);
    RedoKeepsTimeline(h);
  }

  /**
   * A draw stamped no earlier than any active element keeps the timeline in
   * creation order, whatever was undone before it.
   */
  lemma OrderedUnderCommit(h: History, e: DrawingElement)
    requires WellFormed(h) && e.isActive && SortedByCreatedAt(Timeline(h))
    requires NotNewerThan(h.current, e.createdAt)
    ensures SortedByCreatedAt(Timeline(Commit(h, e)))
  {
    CommitExtendsTimeline(h, e);
    var t := Timeline(h);
    var n := |h.current|;
    forall i | 0 <= i < n ensures h.current[i] == t[i] {
      assert t[..n][i] == t[i];
    }
  }

  /** When the timeline is in creation order, so are the active elements. */
  lemma OrderedCurrent(h: History)
    requires WellFormed(h) && SortedByCreatedAt(Timeline(h))
    ensures SortedByCreatedAt(h.current)
  {
    var t := Timeline(h);
    FlaggedAppend(h.current, Reversed(h.redo), true);
    FlaggedIdentity(h.current, true);
    forall i | 0 <= i < |h.current| ensures h.current[i] == t[i] {
      assert (Flagged(h.current, true) + Flagged(Reversed(h.redo), true))[i] == h.current[i];
    }
  }
}
