/**
 * The browser's list against the hub's session state: when the list holds
 * one entry per active element, with the same identities in the same order,
 * each broadcast the hub sends after a draw, an undo or a redo keeps it so.
 * The component that forwards each broadcast to the matching browser
 * function is not part of this model; the lemmas take that forwarding as
 * given.
 */
module Mirror {
  import opened Drawing
  import opened SessionHistory
  import opened Consistency
  import opened LocalHistory

  /** Entry `i` of the browser's list carries the identity of active element `i`. */
  predicate Mirrors(entries: seq<ClientAction>, current: seq<DrawingElement>)
  {
    |entries| == |current| && forall i :: 0 <= i < |entries| ==> entries[i].id == Some(current[i].id)
  }

  /** An identity that no active element carries is not in a mirroring list. */
  lemma AbsentFromMirror(entries: seq<ClientAction>, current: seq<DrawingElement>, id: int)
    requires Mirrors(entries, current)
    requires forall i :: 0 <= i < |current| ==> current[i].id != id
    ensures !Present(entries, id)
  {
  }

  /** A newly drawn element, broadcast with its identity, is appended on both sides. */
  lemma MirrorAfterDraw(entries: seq<ClientAction>, h: History, e: DrawingElement, a: ClientAction)
    requires Mirrors(entries, h.current)
    requires forall i :: 0 <= i < |h.current| ==> h.current[i].id != e.id
    requires a.id == Some(e.id)
    ensures Mirrors(Upsert(entries, a), Commit(h, e).current)
  {
    AbsentFromMirror(entries, h.current, e.id);
    UpsertAppends(entries, a);
  }

  /** The undone identity is the last entry on both sides and leaves both. */
  lemma MirrorAfterUndo(entries: seq<ClientAction>, h: History)
    requires Mirrors(entries, h.current) && WellFormed(h) && CanUndo(h)
    ensures Mirrors(Without(entries, Undone(h).id), UndoStep(h).current)
  {
    var n := |h.current|;
    var id := Undone(h).id;
    var prefix := entries[..n - 1];
    assert entries == prefix + [entries[n - 1]];
    forall i | 0 <= i < n - 1 ensures h.current[i].id != id {
      assert (h.current + h.redo)[i] == h.current[i];
      assert (h.current + h.redo)[n - 1] == h.current[n - 1];
    }
    AbsentFromMirror(prefix, h.current[..n - 1], id);
    WithoutShrinks(prefix, id);
    WithoutAppend(prefix, [entries[n - 1]], id);
    assert Without([entries[n - 1]], id) == [];
  }

  /** A redone element, absent from the list since its undo, is appended on both sides. */
  lemma MirrorAfterRedo(entries: seq<ClientAction>, h: History, a: ClientAction)
    requires Mirrors(entries, h.current) && WellFormed(h) && CanRedo(h)
    requires a.id == Some(Redone(h).id)
    ensures Mirrors(Upsert(entries, a), RedoStep(h).current)
  {
    var n := |h.current|;
    var m := |h.redo|;
    forall i | 0 <= i < n ensures h.current[i].id != Redone(h).id {
      assert (h.current + h.redo)[i] == h.current[i];
      assert (h.current + h.redo)[n + m - 1] == h.redo[m - 1];
    }
    AbsentFromMirror(entries, h.current, Redone(h).id);
    UpsertAppends(entries, a);
  }
}
