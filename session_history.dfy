/**
 * The undo/redo state machine of one session, as values.
 *
 * A history holds the active elements in drawing order and the redo stack,
 * whose TOP IS THE LAST element of `redo` (a push appends). Reading the
 * active elements and then the redo stack from top to bottom gives one
 * timeline; undo and redo only move the cursor between the two parts, and a
 * new drawing cuts the timeline at the cursor and extends it.
 */
module SessionHistory {
  import opened Drawing

  datatype History = History(current: seq<DrawingElement>, redo: seq<DrawingElement>)

  function Reversed<T>(s: seq<T>): (r: seq<T>)
    ensures |r| == |s|
  {
    seq(|s|, i requires 0 <= i < |s| => s[|s| - 1 - i])
  }

  /** Every element with its active flag set to `flag`. */
  function Flagged(s: seq<DrawingElement>, flag: bool): (r: seq<DrawingElement>)
    ensures |r| == |s|
  {
    seq(|s|, i requires 0 <= i < |s| => s[i].(isActive := flag))
  }

  /** The whole timeline: active elements, then the redo stack from its top down. */
  function Timeline(h: History): seq<DrawingElement>
  {
    Flagged(h.current + Reversed(h.redo), true)
  }

  predicate CanUndo(h: History) { h.current != [] }
  predicate CanRedo(h: History) { h.redo != [] }

  predicate DistinctIds(s: seq<DrawingElement>)
  {
    forall i, j :: 0 <= i < j < |s| ==> s[i].id != s[j].id
  }

  /**
   * The invariant of a session: active elements are flagged active, undone
   * ones inactive, and no identity is held twice (so none is in both parts).
   */
  predicate WellFormed(h: History)
  {
    && (forall i :: 0 <= i < |h.current| ==> h.current[i].isActive)
    && (forall i :: 0 <= i < |h.redo| ==> !h.redo[i].isActive)
    && DistinctIds(h.current + h.redo)
  }

  /** A committed drawing: appended as the newest active element; the redo stack is dropped. */
  function Commit(h: History, e: DrawingElement): History
  {
    History(h.current + [e], [])
  }

  /** Undo: the newest active element is flagged inactive and pushed on the redo stack. */
  function UndoStep(h: History): History
  {
    if h.current == [] then h
    else
      var n := |h.current|;
      History(h.current[..n - 1], h.redo + [h.current[n - 1].(isActive := false)])
  }

  /** Redo: the top of the redo stack is flagged active and appended to the active elements. */
  function RedoStep(h: History): History
  {
    if h.redo == [] then h
    else
      var m := |h.redo|;
      History(h.current + [h.redo[m - 1].(isActive := true)], h.redo[..m - 1])
  }

  /** The history whose timeline is `t` with the cursor after its first `k` elements. */
  function AtCursor(t: seq<DrawingElement>, k: nat): History
    requires k <= |t|
  {
    History(Flagged(t[..k], true), Flagged(Reversed(t[k..]), false))
  }

  // ---------------------------------------------------------------- lemmas

  lemma ReversedSnoc<T>(s: seq<T>, x: T)
    ensures Reversed(s + [x]) == [x] + Reversed(s)
  {
    assert forall i :: 0 <= i < |s| + 1 ==> Reversed(s + [x])[i] == ([x] + Reversed(s))[i];
  }

  lemma ReversedTwice<T>(s: seq<T>)
    ensures Reversed(Reversed(s)) == s
  {
    assert forall i :: 0 <= i < |s| ==> Reversed(Reversed(s))[i] == s[i];
  }

  lemma FlaggedAppend(a: seq<DrawingElement>, b: seq<DrawingElement>, flag: bool)
    ensures Flagged(a + b, flag) == Flagged(a, flag) + Flagged(b, flag)
  {
    assert forall i :: 0 <= i < |a| + |b| ==> Flagged(a + b, flag)[i] == (Flagged(a, flag) + Flagged(b, flag))[i];
  }

  lemma FlaggedIdentity(s: seq<DrawingElement>, flag: bool)
    requires forall i :: 0 <= i < |s| ==> s[i].isActive == flag
    ensures Flagged(s, flag) == s
  {
    assert forall i :: 0 <= i < |s| ==> Flagged(s, flag)[i] == s[i];
  }

  lemma FlaggedReversed(s: seq<DrawingElement>, flag: bool, flag': bool)
    ensures Flagged(Reversed(Flagged(s, flag)), flag') == Reversed(Flagged(s, flag'))
  {
    assert forall i :: 0 <= i < |s| ==> Flagged(Reversed(Flagged(s, flag)), flag')[i] == Reversed(Flagged(s, flag'))[i];
  }

  /** Undo moves the cursor one step back: the timeline is unchanged. */
  lemma UndoKeepsTimeline(h: History)
    ensures Timeline(UndoStep(h)) == Timeline(h)
  {
    if h.current != [] {
      var n := |h.current|;
      var x := h.current[n - 1];
      ReversedSnoc(h.redo, x.(isActive := false));
      assert h.current == h.current[..n - 1] + [x];
      assert h.current[..n - 1] + Reversed(h.redo + [x.(isActive := false)])
          == h.current[..n - 1] + [x.(isActive := false)] + Reversed(h.redo);
      FlaggedAppend(h.current[..n - 1] + [x.(isActive := false)], Reversed(h.redo), true);
      FlaggedAppend(h.current[..n - 1], [x.(isActive := false)], true);
      FlaggedAppend(h.current[..n - 1] + [x], Reversed(h.redo), true);
      FlaggedAppend(h.current[..n - 1], [x], true);
    }
  }

  /** Redo moves the cursor one step forward: the timeline is unchanged. */
  lemma RedoKeepsTimeline(h: History)
    ensures Timeline(RedoStep(h)) == Timeline(h)
  {
    if h.redo != [] {
      var m := |h.redo|;
      var y := h.redo[m - 1];
      assert h.redo == h.redo[..m - 1] + [y];
      ReversedSnoc(h.redo[..m - 1], y);
      FlaggedAppend(h.current + [y.(isActive := true)], Reversed(h.redo[..m - 1]), true);
      FlaggedAppend(h.current, [y.(isActive := true)], true);
      FlaggedAppend(h.current + [y], Reversed(h.redo[..m - 1]), true);
      FlaggedAppend(h.current, [y], true);
      assert h.current + [y] + Reversed(h.redo[..m - 1]) == h.current + Reversed(h.redo);
    }
  }

  /** A commit discards the redo part of the timeline and appends the new element. */
  lemma CommitExtendsTimeline(h: History, e: DrawingElement)
    requires WellFormed(h) && e.isActive
    ensures Timeline(Commit(h, e)) == h.current + [e]
    ensures Timeline(h)[..|h.current|] == h.current
  {
    FlaggedIdentity(h.current + [e], true);
    FlaggedAppend(h.current, Reversed(h.redo), true);
    FlaggedIdentity(h.current, true);
    assert Reversed<DrawingElement>([]) == [];
  }

  /** A well-formed history is determined by its timeline and the number of active elements. */
  lemma CursorDetermines(h: History)
    requires WellFormed(h)
    ensures |h.current| <= |Timeline(h)|
    ensures h == AtCursor(Timeline(h), |h.current|)
  {
    var t := Timeline(h);
    var k := |h.current|;
    FlaggedAppend(h.current, Reversed(h.redo), true);
    assert t[..k] == Flagged(h.current, true);
    assert t[k..] == Flagged(Reversed(h.redo), true);
    FlaggedIdentity(h.current, true);
    assert Flagged(t[..k], true) == h.current by {
      FlaggedIdentity(Flagged(h.current, true), true);
    }
    calc {
      Flagged(Reversed(t[k..]), false);
      Flagged(Reversed(Flagged(Reversed(h.redo), true)), false);
      { FlaggedReversed(Reversed(h.redo), true, false); }
      Reversed(Flagged(Reversed(h.redo), false));
      { FlaggedIdentity(h.redo, false);
        assert forall i :: 0 <= i < |h.redo| ==> Flagged(Reversed(h.redo), false)[i] == Reversed(h.redo)[i]; }
      Reversed(Reversed(h.redo));
      { ReversedTwice(h.redo); }
      h.redo;
    }
  }

  /** Undo steps the cursor back by one over a fixed timeline. */
  lemma UndoMovesCursor(h: History)
    requires WellFormed(h) && CanUndo(h)
    ensures WellFormed(UndoStep(h))
    ensures UndoStep(h) == AtCursor(Timeline(h), |h.current| - 1)
  {
    UndoPreservesWellFormed(h);
    UndoKeepsTimeline(h);
    CursorDetermines(UndoStep(h));
  }

  /** Redo steps the cursor forward by one over a fixed timeline. */
  lemma RedoMovesCursor(h: History)
    requires WellFormed(h) && CanRedo(h)
    ensures WellFormed(RedoStep(h))
    ensures RedoStep(h) == AtCursor(Timeline(h), |h.current| + 1)
  {
    RedoPreservesWellFormed(h);
    RedoKeepsTimeline(h);
    CursorDetermines(RedoStep(h));
  }

  /** An undo immediately followed by a redo restores both parts exactly. */
  lemma RedoUndoesUndo(h: History)
    requires WellFormed(h) && CanUndo(h)
    ensures RedoStep(UndoStep(h)) == h
  {
    var n := |h.current|;
    assert h.current[n - 1].(isActive := false).(isActive := true) == h.current[n - 1];
    assert h.current[..n - 1] + [h.current[n - 1]] == h.current;
    assert (h.redo + [h.current[n - 1].(isActive := false)])[..|h.redo|] == h.redo;
  }

  /** A redo immediately followed by an undo restores both parts exactly. */
  lemma UndoUndoesRedo(h: History)
    requires WellFormed(h) && CanRedo(h)
    ensures UndoStep(RedoStep(h)) == h
  {
    var m := |h.redo|;
    assert h.redo[m - 1].(isActive := true).(isActive := false) == h.redo[m - 1];
    assert h.redo[..m - 1] + [h.redo[m - 1]] == h.redo;
    assert (h.current + [h.redo[m - 1].(isActive := true)])[..|h.current|] == h.current;
  }

  lemma UndoPreservesWellFormed(h: History)
    requires WellFormed(h)
    ensures WellFormed(UndoStep(h))
  {
    if h.current != [] {
      var n := |h.current|;
      var u := UndoStep(h);
      var s := h.current + h.redo;
      var x := h.current[n - 1];
      // the undone element keeps its identity; the ids of u are those of h, permuted
      forall i, j | 0 <= i < j < |u.current + u.redo|
        ensures (u.current + u.redo)[i].id != (u.current + u.redo)[j].id
      {
        var pi := if i < n - 1 then i else if i == |s| - 1 then n - 1 else i + 1;
        var pj := if j < n - 1 then j else if j == |s| - 1 then n - 1 else j + 1;
        assert (u.current + u.redo)[i].id == s[pi].id;
        assert (u.current + u.redo)[j].id == s[pj].id;
        assert pi != pj;
        if pi < pj { assert s[pi].id != s[pj].id; } else { assert s[pj].id != s[pi].id; }
      }
    }
  }

  lemma RedoPreservesWellFormed(h: History)
    requires WellFormed(h)
    ensures WellFormed(RedoStep(h))
  {
    if h.redo != [] {
      var n := |h.current|;
      var m := |h.redo|;
      var r := RedoStep(h);
      var s := h.current + h.redo;
      forall i, j | 0 <= i < j < |r.current + r.redo|
        ensures (r.current + r.redo)[i].id != (r.current + r.redo)[j].id
      {
        var pi := if i < n then i else if i == n then |s| - 1 else i - 1;
        var pj := if j < n then j else if j == n then |s| - 1 else j - 1;
        assert (r.current + r.redo)[i].id == s[pi].id;
        assert (r.current + r.redo)[j].id == s[pj].id;
        assert pi != pj;
        if pi < pj { assert s[pi].id != s[pj].id; } else { assert s[pj].id != s[pi].id; }
      }
    }
  }

  /** A commit of an active element with a fresh identity keeps the invariant. */
  lemma CommitPreservesWellFormed(h: History, e: DrawingElement)
    requires WellFormed(h) && e.isActive
    requires forall i :: 0 <= i < |h.current| ==> h.current[i].id != e.id
    ensures WellFormed(Commit(h, e))
  {
    var c := Commit(h, e);
    assert c.current + c.redo == h.current + [e];
    assert forall i :: 0 <= i < |h.current| ==> (h.current + h.redo)[i] == h.current[i];
  }
}
