/**
 * The hub that coordinates the sessions of the whiteboard: the per-session
 * state held in memory, the cache that hydrates it from the store on first
 * access, and the operations clients call (create, join, leave, draw, undo,
 * redo, cursor). Calls are modelled one after another; the per-session lock
 * appears only through `hung`, the sessions whose lock is held by a call
 * that can never finish.
 */
module WhiteboardHub {
  import opened Drawing
  import opened SessionHistory
  import opened ElementStore
  import opened Consistency

  /** The in-memory state of one session. The top of `redoStack` is its LAST element. */
  class SessionState {
    var currentElements: seq<DrawingElement>
    var redoStack: seq<DrawingElement>

    constructor (elements: seq<DrawingElement>)
      ensures currentElements == elements && redoStack == []
    {
      currentElements := elements;
      redoStack := [];
    }

    function State(): History
      reads this
    {
      History(currentElements, redoStack)
    }
  }

  /** How a session lookup ended. */
  datatype Load =
    | Cached          // found in the cache without waiting
    | Hydrated        // built from the store and cached
    | WaitsForever    // waiting on a session lock that is never released
    | QueryRaised     // the store query raised; nothing is cached

  /** How a client call ended. None of these is reported to the caller. */
  datatype Outcome =
    | Ignored         // empty session identifier
    | Hung            // blocked for good on the session lock
    | QueryFailed     // hydration raised
    | NoOp            // nothing to undo or redo
    | SaveFailed      // the store write raised
    | Applied

  /** The members of `sid` with `conn` added. */
  function AddMember(groups: map<string, set<string>>, sid: string, conn: string): (r: map<string, set<string>>)
    ensures sid in r && r[sid] == (if sid in groups then groups[sid] else {}) + {conn}
    ensures forall g :: g in groups && g != sid ==> g in r && r[g] == groups[g]
    ensures r.Keys == groups.Keys + {sid}
  {
    groups[sid := (if sid in groups then groups[sid] else {}) + {conn}]
  }

  /** The members of `sid` with `conn` removed. */
  function RemoveMember(groups: map<string, set<string>>, sid: string, conn: string): (r: map<string, set<string>>)
    ensures sid in groups ==> sid in r && r[sid] == groups[sid] - {conn}
    ensures forall g :: g in groups && g != sid ==> g in r && r[g] == groups[g]
    ensures r.Keys == groups.Keys
  {
    if sid in groups then groups[sid := groups[sid] - {conn}] else groups
  }

  class Hub {
    var sessions: map<string, SessionState>
    const store: Store
    var hung: set<string>
    var groups: map<string, set<string>>
    var events: seq<Event>

    /**
     * Each session has its own state object, and every state is consistent
     * with the store: well formed, and each element is the stored record of
     * its identity up to the active flag.
     */
    ghost predicate Valid()
      reads this, store, sessions.Values
    {
      && store.Valid()
      && (forall a, b :: a in sessions && b in sessions && a != b ==> sessions[a] != sessions[b])
      && (forall sid :: sid in sessions ==> Consistent(store.rows, sid, sessions[sid].State()))
    }

    /**
     * Memory and store agree on session `sid`: on which elements are active
     * and on every row's contents (not on their order).
     */
    ghost predicate InStep(sid: string)
      reads this, store, sessions.Values
    {
      sid in sessions && Synced(store.rows, sid, sessions[sid].State())
    }

    constructor (store: Store)
      requires store.Valid()
      ensures Valid() && this.store == store
      ensures sessions == map[] && hung == {} && groups == map[] && events == []
    {
      this.store := store;
      sessions, hung, groups, events := map[], {}, map[], [];
    }

    /**
     * Adds `state` under `sid` unless an entry is already there, and returns
     * the entry that is cached afterwards.
     */
    method TryAddSession(sid: string, state: SessionState) returns (cached: SessionState)
      modifies this`sessions
      ensures old(sid in sessions) ==> cached == old(sessions[sid]) && sessions == old(sessions)
      ensures !old(sid in sessions) ==> cached == state && sessions == old(sessions)[sid := state]
    {
      if sid !in sessions {
        sessions := sessions[sid := state];
      }
      cached := sessions[sid];
    }

    /**
     * Looks `sid` up in the cache; on a miss, takes the session lock and
     * builds the state from the active rows of the session, oldest first, with
     * an empty redo stack. `holdsLock` says the caller already holds that lock,
     * in which case a miss waits on it forever.
     */
    method GetOrCreateSessionState(sid: string, holdsLock: bool) returns (load: Load)
      requires Valid()
      modifies this`sessions, this`hung
      ensures Valid()
      ensures old(sid in sessions) ==> load == Cached && sessions == old(sessions) && hung == old(hung)
      ensures !old(sid in sessions) && (holdsLock || sid in old(hung)) ==>
                load == WaitsForever && sessions == old(sessions) && hung == old(hung) + {sid}
      ensures !old(sid in sessions) && !holdsLock && sid !in old(hung) && store.queryFails ==>
                load == QueryRaised && sessions == old(sessions) && hung == old(hung)
      ensures !old(sid in sessions) && !holdsLock && sid !in old(hung) && !store.queryFails ==>
                && load == Hydrated && hung == old(hung)
                && sid in sessions && fresh(sessions[sid])
                && sessions == old(sessions)[sid := sessions[sid]]
                && sessions[sid].State() == History(ActiveOrdered(store.rows, sid, store.nextId), [])
                && InStep(sid)
    {
      if sid in sessions {
        return Cached;
      }
      if holdsLock || sid in hung {
        hung := hung + {sid};
        return WaitsForever;
      }
      // the lock is taken here and released on every path below
      var ok, elements := store.QueryActiveOrdered(sid);
      if !ok {
        return QueryRaised;
      }
      var state := new SessionState(elements);
      HydratedIsSynced(store.rows, sid, store.nextId);
      var cached := TryAddSession(sid, state);
      return Hydrated;
    }

    /** Creates the session `newId` (a fresh random identifier) and adds `conn` to it. */
    method CreateSession(newId: string, conn: string) returns (outcome: Outcome)
      requires Valid()
      modifies this`sessions, this`hung, this`groups
      ensures Valid()
      ensures outcome in {Applied, Hung, QueryFailed}
      ensures outcome == Applied ==> newId in sessions && groups == AddMember(old(groups), newId, conn)
      ensures outcome != Applied ==> groups == old(groups) && newId !in sessions
      ensures outcome == Hung <==> newId !in old(sessions) && newId in old(hung)
      ensures outcome == QueryFailed <==> newId !in old(sessions) && newId !in old(hung) && store.queryFails
      ensures hung == if outcome == Hung then old(hung) + {newId} else old(hung)
      ensures newId in old(sessions) || outcome != Applied ==> sessions == old(sessions)
      ensures newId !in old(sessions) && outcome == Applied ==>
                && fresh(sessions[newId]) && sessions == old(sessions)[newId := sessions[newId]]
                && sessions[newId].State() == History(ActiveOrdered(store.rows, newId, store.nextId), [])
                && InStep(newId)
    {
      var load := GetOrCreateSessionState(newId, false);
      if load == WaitsForever {
        return Hung;
      }
      if load == QueryRaised {
        return QueryFailed;
      }
      groups := AddMember(groups, newId, conn);
      return Applied;
    }

    /**
     * Adds `conn` to session `sid` and sends it a snapshot: the active
     * elements in order, whether there is something to undo and whether there
     * is something to redo.
     */
    method JoinSession(sid: string, conn: string) returns (outcome: Outcome)
      requires Valid()
      modifies this`sessions, this`hung, this`groups, this`events
      ensures Valid()
      ensures sid == "" ==> outcome == Ignored && groups == old(groups)
      ensures sid != "" ==> groups == AddMember(old(groups), sid, conn)
      ensures outcome in {Ignored, Applied, Hung, QueryFailed}
      ensures outcome != Applied ==> events == old(events)
      ensures sid != "" && sid in old(sessions) ==> outcome == Applied
      ensures outcome == Hung <==> sid != "" && sid !in old(sessions) && sid in old(hung)
      ensures outcome == QueryFailed <==> sid != "" && sid !in old(sessions) && sid !in old(hung) && store.queryFails
      ensures hung == if outcome == Hung then old(hung) + {sid} else old(hung)
      ensures sid in old(sessions) || outcome != Applied ==> sessions == old(sessions)
      ensures sid !in old(sessions) && outcome == Applied ==>
                && sid in sessions && fresh(sessions[sid]) && sessions == old(sessions)[sid := sessions[sid]]
                && sessions[sid].State() == History(ActiveOrdered(store.rows, sid, store.nextId), [])
                && InStep(sid)
      ensures outcome == Applied ==>
                && sid in sessions
                && var h := sessions[sid].State();
                   events == old(events) + [ReceiveSessionHistory(conn, ToActions(h.current), CanUndo(h), CanRedo(h))]
    {
      if sid == "" {
        return Ignored;
      }
      groups := AddMember(groups, sid, conn);
      var load := GetOrCreateSessionState(sid, false);
      if load == WaitsForever {
        return Hung;
      }
      if load == QueryRaised {
        return QueryFailed;
      }
      var state := sessions[sid];
      var canUndo := |state.currentElements| > 0;
      var canRedo := |state.redoStack| > 0;
      events := events + [ReceiveSessionHistory(conn, ToActions(state.currentElements), canUndo, canRedo)];
      return Applied;
    }

    /** Removes `conn` from session `sid`; the session state stays cached. */
    method LeaveSession(sid: string, conn: string)
      modifies this`groups
      ensures groups == if sid == "" then old(groups) else RemoveMember(old(groups), sid, conn)
    {
      if sid != "" {
        groups := RemoveMember(groups, sid, conn);
      }
    }

    /** Relays a pointer position to the other members of `sid`; no lock, no store. */
    method SendCursorPosition(sid: string, conn: string, x: real, y: real)
      modifies this`events
      ensures events == if sid == "" then old(events) else old(events) + [ReceiveCursorPosition(sid, conn, x, y)]
    {
      if sid != "" {
        events := events + [ReceiveCursorPosition(sid, conn, x, y)];
      }
    }

    /**
     * The prologue shared by draw, undo and redo: an empty identifier is
     * ignored; otherwise the session lock is taken (waiting for good if a
     * stuck call holds it) and the session is looked up while holding it, so
     * that a session missing from the cache waits for good on that same lock.
     */
    method Enter(sid: string) returns (outcome: Outcome, entered: bool)
      requires Valid()
      modifies this`sessions, this`hung
      ensures Valid() && sessions == old(sessions)
      ensures entered <==> sid != "" && sid !in old(hung) && sid in sessions
      ensures entered || sid == "" ==> hung == old(hung)
      ensures !entered && sid != "" ==> hung == old(hung) + {sid}
      ensures !entered ==> outcome == (if sid == "" then Ignored else Hung)
    {
      if sid == "" {
        return Ignored, false;
      }
      if sid in hung {
        hung := hung + {sid};
        return Hung, false;
      }
      var load := GetOrCreateSessionState(sid, true);
      if load != Cached {
        return Hung, false;
      }
      return Applied, true;
    }

    /**
     * The body of a draw on a cached session: the element is saved first
     * and, only once the save went through, appended to the active elements
     * while the redo stack is cleared, and broadcast with its store-assigned
     * identity.
     */
    method CommitDrawing(input: DrawingActionInput, now: int, sqrt: real -> real) returns (outcome: Outcome)
      requires Valid() && input.sessionId in sessions
      modifies this`events, store`rows, store`nextId, sessions[input.sessionId]
      ensures Valid()
      ensures forall k :: k in sessions && k != input.sessionId ==> sessions[k].State() == old(sessions[k].State())
      ensures outcome == (if store.saveFails then SaveFailed else Applied)
      ensures outcome == SaveFailed ==>
                && events == old(events) && store.rows == old(store.rows) && store.nextId == old(store.nextId)
                && sessions[input.sessionId].State() == old(sessions[input.sessionId].State())
      ensures outcome == Applied ==>
                var sid := input.sessionId;
                var e := NewElement(input, now, sqrt).(id := old(store.nextId));
                && store.rows == old(store.rows)[e.id := e]
                && e.id !in old(store.rows)
                && sessions[sid].State() == Commit(old(sessions[sid].State()), e)
                && events == old(events) + [ReceiveDrawingAction(sid, ToAction(e), true, false)]
                && (old(InStep(sid)) ==> InStep(sid))
    {
      var sid := input.sessionId;
      var state := sessions[sid];
      var element := NewElement(input, now, sqrt);
      var ok, id := store.Insert(element);
      if !ok {
        return SaveFailed;
      }
      element := element.(id := id);
      ghost var before := state.State();
      ghost var rows0 := old(store.rows);
      state.currentElements := state.currentElements + [element];
      state.redoStack := [];
      CommitKeepsAgreement(rows0, sid, before, element);
      forall k | k in sessions && k != sid
        ensures Consistent(store.rows, k, sessions[k].State())
      {
        assert sessions[k] != state;
        ConsistentUnderWrite(rows0, k, sessions[k].State(), element);
      }
      var canUndo := |state.currentElements| > 0;
      var canRedo := |state.redoStack| > 0;
      events := events + [ReceiveDrawingAction(sid, ToAction(element), canUndo, canRedo)];
      return Applied;
    }

    /**
     * Handles a drawing submitted by a client: see `Enter` and `CommitDrawing`.
     * `now` is the clock and `sqrt` the platform square root. On success the
     * session has nothing to redo, and the broadcast says so.
     */
    method SendDrawingAction(input: DrawingActionInput, now: int, sqrt: real -> real) returns (outcome: Outcome)
      requires Valid()
      modifies this`sessions, this`hung, this`events, store`rows, store`nextId
      modifies if input.sessionId in sessions then {sessions[input.sessionId]} else {}
      ensures Valid() && sessions == old(sessions)
      ensures forall k :: k in sessions && k != input.sessionId ==> sessions[k].State() == old(sessions[k].State())
      ensures input.sessionId == "" ==> outcome == Ignored
      ensures input.sessionId != "" && (input.sessionId in old(hung) || input.sessionId !in sessions) ==>
                outcome == Hung && hung == old(hung) + {input.sessionId}
      ensures outcome != Hung ==> hung == old(hung)
      ensures outcome != Applied ==>
                && events == old(events) && store.rows == old(store.rows) && store.nextId == old(store.nextId)
                && (input.sessionId in sessions ==> sessions[input.sessionId].State() == old(sessions[input.sessionId].State()))
      ensures input.sessionId != "" && input.sessionId !in old(hung) && input.sessionId in sessions ==>
                outcome == (if store.saveFails then SaveFailed else Applied)
      ensures outcome == Applied ==>
                var sid := input.sessionId;
                var e := NewElement(input, now, sqrt).(id := old(store.nextId));
                && store.rows == old(store.rows)[e.id := e]
                && e.id !in old(store.rows)
                && sessions[sid].State() == Commit(old(sessions[sid].State()), e)
                && !CanRedo(sessions[sid].State())
                && events == old(events) + [ReceiveDrawingAction(sid, ToAction(e), true, false)]
                && (old(InStep(sid)) ==> InStep(sid))
    {
      var entered;
      outcome, entered := Enter(input.sessionId);
      if entered {
        outcome := CommitDrawing(input, now, sqrt);
      }
    }

    /**
     * The body of an undo on a cached session: the newest active element
     * leaves the active elements, is flagged inactive and pushed on the redo
     * stack, all BEFORE the flag is saved; a failing save keeps the change in
     * memory and broadcasts nothing.
     */
    method ApplyUndo(sid: string) returns (outcome: Outcome)
      requires Valid() && sid in sessions
      modifies this`events, store`rows, sessions[sid]
      ensures Valid()
      ensures forall k :: k in sessions && k != sid ==> sessions[k].State() == old(sessions[k].State())
      ensures outcome == (if !CanUndo(old(sessions[sid].State())) then NoOp
                          else if store.saveFails then SaveFailed else Applied)
      ensures outcome == NoOp ==>
                events == old(events) && store.rows == old(store.rows) && sessions[sid].State() == old(sessions[sid].State())
      ensures outcome != NoOp ==> sessions[sid].State() == UndoStep(old(sessions[sid].State()))
      ensures outcome == SaveFailed ==>
                var x := Undone(old(sessions[sid].State()));
                && events == old(events) && store.rows == old(store.rows)
                && (old(InStep(sid)) ==> x.id in store.rows && store.rows[x.id].isActive && !InStep(sid))
      ensures outcome == Applied ==>
                var x := Undone(old(sessions[sid].State()));
                && store.rows == old(store.rows)[x.id := x]
                && events == old(events) + [ActionUndone(sid, x.id, CanUndo(sessions[sid].State()), true)]
                && (old(InStep(sid)) ==> InStep(sid))
    {
      var state := sessions[sid];
      if |state.currentElements| == 0 {
        return NoOp;
      }
      ghost var before := state.State();
      ghost var rows0 := store.rows;
      UndoKeepsAgreement(rows0, sid, before);
      var n := |state.currentElements|;
      var undone := state.currentElements[n - 1];
      state.currentElements := state.currentElements[..n - 1];
      undone := undone.(isActive := false);
      state.redoStack := state.redoStack + [undone];
      assert undone == Undone(before);
      assert Elements(before)[n - 1] == before.current[n - 1];
      assert undone.id in rows0 && SameRecord(rows0[undone.id], undone);
      var ok := store.Update(undone);
      forall k | k in sessions && k != sid
        ensures Consistent(store.rows, k, sessions[k].State())
      {
        assert sessions[k] != state;
        ConsistentUnderWrite(rows0, k, sessions[k].State(), undone);
      }
      if !ok {
        return SaveFailed;
      }
      var canUndo := |state.currentElements| > 0;
      var canRedo := |state.redoStack| > 0;
      events := events + [ActionUndone(sid, undone.id, canUndo, canRedo)];
      return Applied;
    }

    /** Handles an undo request from a client: see `Enter` and `ApplyUndo`. */
    method Undo(sid: string) returns (outcome: Outcome)
      requires Valid()
      modifies this`sessions, this`hung, this`events, store`rows
      modifies if sid in sessions then {sessions[sid]} else {}
      ensures Valid() && sessions == old(sessions)
      ensures forall k :: k in sessions && k != sid ==> sessions[k].State() == old(sessions[k].State())
      ensures sid == "" ==> outcome == Ignored
      ensures sid != "" && (sid in old(hung) || sid !in sessions) ==>
                outcome == Hung && hung == old(hung) + {sid}
      ensures outcome != Hung ==> hung == old(hung)
      ensures outcome in {Ignored, Hung, NoOp} ==>
                && events == old(events) && store.rows == old(store.rows)
                && (sid in sessions ==> sessions[sid].State() == old(sessions[sid].State()))
      ensures sid != "" && sid !in old(hung) && sid in sessions ==>
                outcome == (if !CanUndo(old(sessions[sid].State())) then NoOp
                            else if store.saveFails then SaveFailed else Applied)
      ensures outcome in {SaveFailed, Applied} ==>
                sessions[sid].State() == UndoStep(old(sessions[sid].State()))
      ensures outcome == SaveFailed ==>
                var x := Undone(old(sessions[sid].State()));
                && events == old(events) && store.rows == old(store.rows)
                && (old(InStep(sid)) ==> x.id in store.rows && store.rows[x.id].isActive && !InStep(sid))
      ensures outcome == Applied ==>
                var x := Undone(old(sessions[sid].State()));
                && store.rows == old(store.rows)[x.id := x]
                && events == old(events) + [ActionUndone(sid, x.id, CanUndo(sessions[sid].State()), true)]
                && (old(InStep(sid)) ==> InStep(sid))
    {
      var entered;
      outcome, entered := Enter(sid);
      if entered {
        outcome := ApplyUndo(sid);
      }
    }

    /**
     * The body of a redo on a cached session: the top of the redo stack is
     * popped, flagged active and appended as the NEWEST active element,
     * before the flag is saved.
     */
    method ApplyRedo(sid: string) returns (outcome: Outcome)
      requires Valid() && sid in sessions
      modifies this`events, store`rows, sessions[sid]
      ensures Valid()
      ensures forall k :: k in sessions && k != sid ==> sessions[k].State() == old(sessions[k].State())
      ensures outcome == (if !CanRedo(old(sessions[sid].State())) then NoOp
                          else if store.saveFails then SaveFailed else Applied)
      ensures outcome == NoOp ==>
                events == old(events) && store.rows == old(store.rows) && sessions[sid].State() == old(sessions[sid].State())
      ensures outcome != NoOp ==> sessions[sid].State() == RedoStep(old(sessions[sid].State()))
      ensures outcome == SaveFailed ==> events == old(events) && store.rows == old(store.rows)
      ensures outcome == Applied ==>
                var y := Redone(old(sessions[sid].State()));
                && store.rows == old(store.rows)[y.id := y]
                && events == old(events) + [ReceiveRedoneAction(sid, ToAction(y), true, CanRedo(sessions[sid].State()))]
                && (old(InStep(sid)) ==> InStep(sid))
    {
      var state := sessions[sid];
      if |state.redoStack| == 0 {
        return NoOp;
      }
      ghost var before := state.State();
      ghost var rows0 := store.rows;
      RedoKeepsAgreement(rows0, sid, before);
      var m := |state.redoStack|;
      var redone := state.redoStack[m - 1];
      state.redoStack := state.redoStack[..m - 1];
      redone := redone.(isActive := true);
      state.currentElements := state.currentElements + [redone];
      assert redone == Redone(before);
      assert Elements(before)[|before.current| + m - 1] == before.redo[m - 1];
      assert redone.id in rows0 && SameRecord(rows0[redone.id], redone);
      var ok := store.Update(redone);
      forall k | k in sessions && k != sid
        ensures Consistent(store.rows, k, sessions[k].State())
      {
        assert sessions[k] != state;
        ConsistentUnderWrite(rows0, k, sessions[k].State(), redone);
      }
      if !ok {
        return SaveFailed;
      }
      var canUndo := |state.currentElements| > 0;
      var canRedo := |state.redoStack| > 0;
      events := events + [ReceiveRedoneAction(sid, ToAction(redone), canUndo, canRedo)];
      return Applied;
    }

    /** Handles a redo request from a client: see `Enter` and `ApplyRedo`. */
    method Redo(sid: string) returns (outcome: Outcome)
      requires Valid()
      modifies this`sessions, this`hung, this`events, store`rows
      modifies if sid in sessions then {sessions[sid]} else {}
      ensures Valid() && sessions == old(sessions)
      ensures forall k :: k in sessions && k != sid ==> sessions[k].State() == old(sessions[k].State())
      ensures sid == "" ==> outcome == Ignored
      ensures sid != "" && (sid in old(hung) || sid !in sessions) ==>
                outcome == Hung && hung == old(hung) + {sid}
      ensures outcome != Hung ==> hung == old(hung)
      ensures outcome in {Ignored, Hung, NoOp} ==>
                && events == old(events) && store.rows == old(store.rows)
                && (sid in sessions ==> sessions[sid].State() == old(sessions[sid].State()))
      ensures sid != "" && sid !in old(hung) && sid in sessions ==>
                outcome == (if !CanRedo(old(sessions[sid].State())) then NoOp
                            else if store.saveFails then SaveFailed else Applied)
      ensures outcome in {SaveFailed, Applied} ==>
                sessions[sid].State() == RedoStep(old(sessions[sid].State()))
      ensures outcome == SaveFailed ==> events == old(events) && store.rows == old(store.rows)
      ensures outcome == Applied ==>
                var y := Redone(old(sessions[sid].State()));
                && store.rows == old(store.rows)[y.id := y]
                && events == old(events) + [ReceiveRedoneAction(sid, ToAction(y), true, CanRedo(sessions[sid].State()))]
                && (old(InStep(sid)) ==> InStep(sid))
    {
      var entered;
      outcome, entered := Enter(sid);
      if entered {
        outcome := ApplyRedo(sid);
      }
    }
  }
}
