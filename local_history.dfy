/**
 * The browser's copy of a session's drawing history: a list of actions keyed
 * by their store identity. The hub's snapshot replaces the whole list, a
 * remote drawing or redo inserts or replaces its action by identity, and a
 * remote undo filters its identity out. Rendering is not modelled.
 */
module LocalHistory {
  import opened Drawing

  /** An action as the browser holds it; `id` is missing on old-format actions. */
  datatype ClientAction = ClientAction(
    id: Option<int>,
    actionType: string,
    x1: real, y1: real, x2: real, y2: real,
    color: Option<string>,
    lineWidth: Option<real>,
    strokeDataJson: Option<string>,
    radius: Option<real>)

  /** What arrives as the session snapshot: an array of actions, or anything else. */
  datatype ServerHistory = ArrayOf(actions: seq<ClientAction>) | NotAnArray

  predicate HasId(a: ClientAction, id: int)
  {
    a.id == Some(id)
  }

  /** The entries whose identity is not `id`, in their original order. */
  function Without(h: seq<ClientAction>, id: int): seq<ClientAction>
  {
    if h == [] then []
    else if HasId(h[0], id) then Without(h[1..], id)
    else [h[0]] + Without(h[1..], id)
  }

  /** The first position holding identity `id`, or -1 when there is none. */
  function IndexOfId(h: seq<ClientAction>, id: int): (i: int)
    ensures -1 <= i < |h|
    ensures i >= 0 ==> HasId(h[i], id) && forall j :: 0 <= j < i ==> !HasId(h[j], id)
    ensures i == -1 ==> forall j :: 0 <= j < |h| ==> !HasId(h[j], id)
  {
    if h == [] then -1
    else if HasId(h[0], id) then 0
    else
      var r := IndexOfId(h[1..], id);
      if r == -1 then -1 else r + 1
  }

  /** The list after a remote action with an identity arrives: replace in place, or append. */
  function Upsert(h: seq<ClientAction>, a: ClientAction): seq<ClientAction>
    requires a.id.Some?
  {
    var i := IndexOfId(h, a.id.value);
    if i >= 0 then h[i := a] else h + [a]
  }

  /** No identity occurs twice (entries without identity are not compared). */
  predicate UniqueIds(h: seq<ClientAction>)
  {
    forall i, j :: 0 <= i < j < |h| && h[i].id.Some? ==> h[i].id != h[j].id
  }

  predicate Present(h: seq<ClientAction>, id: int)
  {
    exists i :: 0 <= i < |h| && HasId(h[i], id)
  }

  // ---------------------------------------------------------------- lemmas

  /** Filtering distributes over concatenation, so the kept entries keep their order. */
  lemma {:induction false} WithoutAppend(a: seq<ClientAction>, b: seq<ClientAction>, id: int)
    ensures Without(a + b, id) == Without(a, id) + Without(b, id)
  {
    if a != [] {
      assert (a + b)[1..] == a[1..] + b;
      WithoutAppend(a[1..], b, id);
    } else {
      assert a + b == b;
    }
  }

  /** An entry survives the filter exactly when it is in the list and lacks the identity. */
  lemma {:induction false} WithoutMembers(h: seq<ClientAction>, id: int, x: ClientAction)
    ensures x in Without(h, id) <==> x in h && !HasId(x, id)
  {
    if h != [] {
      WithoutMembers(h[1..], id, x);
      assert h == [h[0]] + h[1..];
    }
  }

  /** The filter removes something exactly when the identity is present. */
  lemma {:induction false} WithoutShrinks(h: seq<ClientAction>, id: int)
    ensures |Without(h, id)| <= |h|
    ensures |Without(h, id)| < |h| <==> Present(h, id)
    ensures !Present(h, id) ==> Without(h, id) == h
  {
    if h != [] {
      WithoutShrinks(h[1..], id);
      if Present(h[1..], id) {
        var i :| 0 <= i < |h[1..]| && HasId(h[1..][i], id);
        assert HasId(h[i + 1], id);
      }
      if Present(h, id) && !HasId(h[0], id) {
        var i :| 0 <= i < |h| && HasId(h[i], id);
        assert HasId(h[1..][i - 1], id);
      }
      if !Present(h, id) {
        assert h == [h[0]] + h[1..];
        forall i | 0 <= i < |h[1..]| ensures !HasId(h[1..][i], id) {
          assert h[1..][i] == h[i + 1];
        }
      }
    }
  }

  /** Undoing the same identity twice is the same as undoing it once. */
  lemma {:induction false} WithoutIdempotent(h: seq<ClientAction>, id: int)
    ensures Without(Without(h, id), id) == Without(h, id)
  {
    if h != [] {
      WithoutIdempotent(h[1..], id);
    }
  }

  /** Filtering keeps identities unique. */
  lemma WithoutKeepsUnique(h: seq<ClientAction>, id: int)
    requires UniqueIds(h)
    ensures UniqueIds(Without(h, id))
  {
    var w := Without(h, id);
    forall i, j | 0 <= i < j < |w| && w[i].id.Some? ensures w[i].id != w[j].id {
      WithoutOrdered(h, id, i, j);
    }
  }

  /** Two kept entries come from two positions of the list, in the same order. */
  lemma {:induction false} WithoutOrdered(h: seq<ClientAction>, id: int, i: int, j: int)
    requires 0 <= i < j < |Without(h, id)|
    ensures exists p, q :: 0 <= p < q < |h| && h[p] == Without(h, id)[i] && h[q] == Without(h, id)[j]
  {
    var w := Without(h, id);
    if HasId(h[0], id) {
      WithoutOrdered(h[1..], id, i, j);
      var p, q :| 0 <= p < q < |h[1..]| && h[1..][p] == w[i] && h[1..][q] == w[j];
      assert h[p + 1] == w[i] && h[q + 1] == w[j];
    } else if i == 0 {
      WithoutMembers(h[1..], id, w[j]);
      assert w[j] == Without(h[1..], id)[j - 1];
      var q :| 0 <= q < |h[1..]| && h[1..][q] == w[j];
      assert h[0] == w[0] && h[q + 1] == w[j];
    } else {
      WithoutOrdered(h[1..], id, i - 1, j - 1);
      var p, q :| 0 <= p < q < |h[1..]| && h[1..][p] == Without(h[1..], id)[i - 1] && h[1..][q] == Without(h[1..], id)[j - 1];
      assert h[p + 1] == w[i] && h[q + 1] == w[j];
    }
  }

  /** An action whose identity is already present replaces the first such entry in place. */
  lemma UpsertReplaces(h: seq<ClientAction>, a: ClientAction, i: int)
    requires a.id.Some? && 0 <= i < |h| && HasId(h[i], a.id.value)
    requires forall j :: 0 <= j < i ==> !HasId(h[j], a.id.value)
    ensures |Upsert(h, a)| == |h|
    ensures Upsert(h, a)[i] == a
    ensures forall j :: 0 <= j < |h| && j != i ==> Upsert(h, a)[j] == h[j]
  {
    assert IndexOfId(h, a.id.value) == i;
  }

  /** An action with a new identity is appended at the end. */
  lemma UpsertAppends(h: seq<ClientAction>, a: ClientAction)
    requires a.id.Some? && !Present(h, a.id.value)
    ensures Upsert(h, a) == h + [a]
  {
    var k := IndexOfId(h, a.id.value);
  }

  /** An upsert never duplicates an identity, and afterwards the action is present. */
  lemma UpsertKeepsUnique(h: seq<ClientAction>, a: ClientAction)
    requires a.id.Some? && UniqueIds(h)
    ensures UniqueIds(Upsert(h, a))
    ensures a in Upsert(h, a)
  {
    var k := IndexOfId(h, a.id.value);
    var u := Upsert(h, a);
    if k >= 0 {
      forall i, j | 0 <= i < j < |u| && u[i].id.Some? ensures u[i].id != u[j].id {
        if i == k {
          assert h[k].id == a.id;
        } else if j == k {
          assert h[k].id == a.id;
        }
      }
      assert u[k] == a;
    } else {
      assert u[|h|] == a;
    }
  }

  /** Upserting the same action again changes nothing. */
  lemma UpsertIdempotent(h: seq<ClientAction>, a: ClientAction)
    requires a.id.Some?
    ensures Upsert(Upsert(h, a), a) == Upsert(h, a)
  {
    var id := a.id.value;
    var k := IndexOfId(h, id);
    var u := Upsert(h, a);
    if k >= 0 {
      assert HasId(u[k], id);
      forall j | 0 <= j < k ensures !HasId(u[j], id) { assert u[j] == h[j]; }
      assert IndexOfId(u, id) == k;
    } else {
      assert HasId(u[|h|], id);
      forall j | 0 <= j < |h| ensures !HasId(u[j], id) { assert u[j] == h[j]; }
      assert IndexOfId(u, id) == |h|;
    }
  }

  /** Undoing an identity after upserting it is the same as undoing it without the upsert. */
  lemma UndoAfterUpsert(h: seq<ClientAction>, a: ClientAction)
    requires a.id.Some?
    ensures Without(Upsert(h, a), a.id.value) == Without(h, a.id.value)
  {
    var id := a.id.value;
    var k := IndexOfId(h, id);
    if k >= 0 {
      assert h == h[..k] + [h[k]] + h[k + 1..];
      assert Upsert(h, a) == h[..k] + [a] + h[k + 1..];
      WithoutAppend(h[..k] + [h[k]], h[k + 1..], id);
      WithoutAppend(h[..k] + [a], h[k + 1..], id);
      WithoutAppend(h[..k], [h[k]], id);
      WithoutAppend(h[..k], [a], id);
    } else {
      WithoutAppend(h, [a], id);
    }
  }

  // ---------------------------------------------------------------- the browser's list

  class LocalDrawingHistory {
    var entries: seq<ClientAction>

    constructor ()
      ensures entries == []
    {
      entries := [];
    }

    /** Replaces the list with a copy of the snapshot, or empties it when the snapshot is not an array. */
    method ProcessInitialHistory(fromServer: ServerHistory)
      modifies this
      ensures entries == (if fromServer.ArrayOf? then fromServer.actions else [])
    {
      if !fromServer.ArrayOf? {
        entries := [];
      } else {
        entries := fromServer.actions;
      }
    }

    /**
     * Drops every entry with identity `actionId`, keeping the rest in order,
     * and reports whether the list got shorter.
     */
    method UndoActionById(actionId: int) returns (found: bool)
      modifies this
      ensures entries == Without(old(entries), actionId)
      ensures found <==> Present(old(entries), actionId)
    {
      var h := entries;
      var initialLength := |h|;
      var kept: seq<ClientAction> := [];
      var i := 0;
      while i < |h|
        invariant 0 <= i <= |h|
        invariant kept == Without(h[..i], actionId)
      {
        assert h[..i + 1] == h[..i] + [h[i]];
        WithoutAppend(h[..i], [h[i]], actionId);
        if !HasId(h[i], actionId) {
          kept := kept + [h[i]];
        }
        i := i + 1;
      }
      assert h[..i] == h;
      WithoutShrinks(h, actionId);
      entries := kept;
      found := |entries| < initialLength;
    }

    /** The first position whose entry has identity `id`, or -1. */
    method FindIndex(id: int) returns (index: int)
      ensures -1 <= index < |entries|
      ensures index >= 0 ==> HasId(entries[index], id) && forall j :: 0 <= j < index ==> !HasId(entries[j], id)
      ensures index == -1 ==> !Present(entries, id)
    {
      var i := 0;
      while i < |entries|
        invariant 0 <= i <= |entries|
        invariant forall j :: 0 <= j < i ==> !HasId(entries[j], id)
      {
        if HasId(entries[i], id) {
          return i;
        }
        i := i + 1;
      }
      return -1;
    }

    /**
     * Records an action broadcast by the hub. Nothing is recorded when the
     * canvas is not ready or the action has no identity; otherwise the entry
     * with that identity is replaced in place, or the action is appended.
     */
    method DrawRemoteAction(action: ClientAction, canvasReady: bool)
      modifies this
      ensures entries == if canvasReady && action.id.Some? then Upsert(old(entries), action) else old(entries)
    {
      if !canvasReady {
        return;
      }
      if action.id.Some? {
        var existing := FindIndex(action.id.value);
        assert existing == IndexOfId(entries, action.id.value);
        if existing > -1 {
          entries := entries[existing := action];
        } else {
          entries := entries + [action];
        }
      }
    }
  }
}
