# Realtime whiteboard: session history, browser history and stroke simplification

This project models the core of a collaborative whiteboard. The model has two sides.

**Server side.** The hub (`WhiteboardHub`) keeps one `SessionState` per session in memory:
- the active drawing elements, in drawing order;
- a redo stack of undone elements.

A session's state is built from the element store the first time the session is needed. The hydration query returns the session's active rows, oldest first. After that the state lives only in the cache. Clients can:
- create or join a session (joining sends a snapshot with the can-undo and can-redo flags);
- leave a session;
- draw: the element is saved first, then appended, and the redo stack is cleared;
- undo: the newest element is flagged inactive and pushed on the redo stack before the flag is saved;
- redo: the top of the redo stack is flagged active and appended again before the flag is saved;
- relay their cursor position.

The store is modelled as:
- a map from identity to row, plus the next identity it will hand out;
- two switches, `saveFails` and `queryFails`, that say whether the next write or the next query raises.

Broadcasts are appended to an event log, and group membership is a map from session to connections.

**Client side.** The browser keeps a list of actions keyed by identity:
- the snapshot replaces the whole list;
- a remote drawing or redo inserts the action, or replaces it by identity;
- a remote undo filters its identity out.

Before a pen stroke is sent, it is simplified with the Ramer-Douglas-Peucker algorithm.

What is proved:

- **Timeline invariant.** Read the active elements, then the redo stack from its top down. Undo and redo leave this timeline unchanged and only move the cursor. A draw cuts the timeline at the cursor and appends to it. An undo followed by a redo restores the state exactly, and the converse holds too. A well-formed history is determined by its timeline and cursor.
- **Session invariant.** Active elements are flagged active and undone ones inactive. No identity is held twice. Draw, undo and redo preserve this.
- **Agreement with the store.** The hub keeps each session *consistent*: every element in memory is the stored record of its identity, up to the active flag. A freshly hydrated session is also *in step* with the store: memory and store agree on which elements are active and on every row's contents (in step says nothing about order). A successful draw, undo or redo keeps it in step. An undo whose save fails leaves the store holding the undone element as active, so memory and store are no longer in step.
- **Creation order.** A freshly hydrated timeline is in creation order. Undo and redo leave that order intact. A draw keeps it as long as the clock does not go back, i.e. the new element is no older than any active element. While the timeline is in order, so are the active elements.
- **Ordering of store writes and memory changes.** A draw changes memory only after its save went through. Undo and redo change memory before saving, and keep the change when the save fails.
- **Cache.** A session already cached is never reloaded. A draw, undo or redo on a session that is not cached waits for good. The reason: the handler already holds the session's lock, and the loader waits on that same lock. The model records this as the outcome `Hung`.
- **Browser list.**
  - The undo filter removes exactly the entries with that identity and keeps the rest in order.
  - An upsert replaces at the same position or appends.
  - An upsert keeps identities unique.
  - When the list mirrors the server's active elements, each broadcast keeps it mirroring them.
- **Simplification.**
  - The result is a subsequence of the input that keeps both end points.
  - Every dropped point lies within epsilon of the line through its two kept neighbours.
  - The result is just the two end points exactly when every interior point is within epsilon.

Modules:
- `Drawing`: element, messages, events.
- `SessionHistory`: undo/redo state machine as values.
- `ElementStore`: store, hydration query.
- `Consistency`: memory against store.
- `WhiteboardHub`: the hub as a class.
- `LocalHistory`: the browser list.
- `Mirror`: browser list against session state.
- `Simplify`: stroke simplification.

## Model

| member | source | states |
|---|---|---|
| Drawing.NewElement | RealtimeWhiteboard/Hubs/WhiteboardHub.cs:188-204 | a new element has no identity yet (0), is active, is stamped with the clock, copies the request's session, tool, coordinates, color, line width and stroke data, and has a radius (the square root of the squared length) exactly when the tool is a circle |
| Drawing.ToAction | RealtimeWhiteboard/Hubs/WhiteboardHub.cs:217-221 | the broadcast record carries the element's identity, session, tool, coordinates, color, line width, stroke data and radius |
| Drawing.ToActionForgetsOnlyTimeAndFlag | RealtimeWhiteboard/Hubs/WhiteboardHub.cs:15 | two elements broadcast alike exactly when they differ at most in timestamp and active flag |
| SessionHistory.UndoKeepsTimeline | RealtimeWhiteboard/Hubs/WhiteboardHub.cs:268-273 | undo leaves the timeline (active elements, then redo stack top-down) unchanged |
| SessionHistory.RedoKeepsTimeline | RealtimeWhiteboard/Hubs/WhiteboardHub.cs:321-325 | redo leaves the timeline unchanged |
| SessionHistory.CommitExtendsTimeline | RealtimeWhiteboard/Hubs/WhiteboardHub.cs:214-215 | a draw keeps the timeline up to the cursor, drops the rest and appends the new element |
| SessionHistory.CursorDetermines | RealtimeWhiteboard/Hubs/WhiteboardHub.cs:22-28 | a well-formed session state is exactly the timeline split at the number of active elements |
| SessionHistory.UndoMovesCursor | RealtimeWhiteboard/Hubs/WhiteboardHub.cs:268-273 | undo moves the cursor one step back over the same timeline |
| SessionHistory.RedoMovesCursor | RealtimeWhiteboard/Hubs/WhiteboardHub.cs:321-325 | redo moves the cursor one step forward over the same timeline |
| SessionHistory.RedoUndoesUndo | RealtimeWhiteboard/Hubs/WhiteboardHub.cs:268-273 | an undo followed by a redo restores the state exactly |
| SessionHistory.UndoUndoesRedo | RealtimeWhiteboard/Hubs/WhiteboardHub.cs:321-325 | a redo followed by an undo restores the state exactly |
| SessionHistory.UndoPreservesWellFormed | RealtimeWhiteboard/Hubs/WhiteboardHub.cs:268-273 | undo keeps active elements active, undone ones inactive and identities distinct |
| SessionHistory.RedoPreservesWellFormed | RealtimeWhiteboard/Hubs/WhiteboardHub.cs:321-325 | redo keeps the session invariant |
| SessionHistory.CommitPreservesWellFormed | RealtimeWhiteboard/Hubs/WhiteboardHub.cs:214-215 | appending an active element with a fresh identity and clearing the redo stack keeps the session invariant |
| ElementStore.ActiveRowsSound | RealtimeWhiteboard/Hubs/WhiteboardHub.cs:87-88 | every row the scan yields is an active row of the session, as stored |
| ElementStore.ActiveRowsIncreasing | RealtimeWhiteboard/Hubs/WhiteboardHub.cs:87-88 | the scan yields each identity at most once, in increasing order |
| ElementStore.ActiveRowsComplete | RealtimeWhiteboard/Hubs/WhiteboardHub.cs:87-88 | every active row of the session is yielded |
| ElementStore.InsertByCreatedAt | RealtimeWhiteboard/Hubs/WhiteboardHub.cs:89 | inserting adds exactly the one element |
| ElementStore.SortByCreatedAt | RealtimeWhiteboard/Hubs/WhiteboardHub.cs:89 | the sort is a permutation of its input |
| ElementStore.InsertKeepsOrder | RealtimeWhiteboard/Hubs/WhiteboardHub.cs:89 | inserting into a list sorted by creation time keeps it sorted |
| ElementStore.InsertKeepsIdsDistinct | RealtimeWhiteboard/Hubs/WhiteboardHub.cs:89 | inserting an element with a new identity keeps identities distinct |
| ElementStore.SortIsSorted | RealtimeWhiteboard/Hubs/WhiteboardHub.cs:89 | the result is ordered by creation time, oldest first |
| ElementStore.SortKeepsIdsDistinct | RealtimeWhiteboard/Hubs/WhiteboardHub.cs:89 | sorting does not repeat an identity |
| ElementStore.ActiveOrderedSpec | RealtimeWhiteboard/Hubs/WhiteboardHub.cs:87-91 | the hydration query returns exactly the session's active rows, each as stored, oldest first, with no identity repeated |
| ElementStore.Store.Insert | RealtimeWhiteboard/Hubs/WhiteboardHub.cs:207-209 | a save either fails and writes nothing, or stores the element under the next, fresh identity |
| ElementStore.Store.Update | RealtimeWhiteboard/Hubs/WhiteboardHub.cs:276-278 | an update either fails and writes nothing, or rewrites exactly the element's row |
| ElementStore.Store.QueryActiveOrdered | RealtimeWhiteboard/Hubs/WhiteboardHub.cs:87-91 | the query either raises or returns the session's active rows, oldest first |
| Consistency.HydratedIsSynced | RealtimeWhiteboard/Hubs/WhiteboardHub.cs:95 | a freshly hydrated state is consistent with the store and in step with it |
| Consistency.ConsistentUnderWrite | RealtimeWhiteboard/Hubs/WhiteboardHub.cs:207-209 | writing a new row, or a row of the same record, keeps any session consistent |
| Consistency.CommitKeepsAgreement | RealtimeWhiteboard/Hubs/WhiteboardHub.cs:207-215 | a saved draw keeps the session consistent, and in step if it was |
| Consistency.UndoKeepsAgreement | RealtimeWhiteboard/Hubs/WhiteboardHub.cs:268-278 | an undo keeps the session consistent whether or not its save lands; a saved one keeps it in step; an unsaved one leaves the store holding the undone element as active, no longer in step |
| Consistency.RedoKeepsAgreement | RealtimeWhiteboard/Hubs/WhiteboardHub.cs:321-330 | a redo keeps the session consistent whether or not its save lands; a saved one keeps it in step |
| Consistency.HydratedIsOrdered | RealtimeWhiteboard/Hubs/WhiteboardHub.cs:87-95 | a freshly hydrated timeline is in creation order |
| Consistency.OrderedUnderUndoRedo | RealtimeWhiteboard/Hubs/WhiteboardHub.cs:268-273 | undo and redo leave the creation order of the timeline unchanged |
| Consistency.OrderedUnderCommit | RealtimeWhiteboard/Hubs/WhiteboardHub.cs:196-215 | a draw stamped no earlier than any active element keeps the timeline in creation order |
| Consistency.OrderedCurrent | RealtimeWhiteboard/Hubs/WhiteboardHub.cs:22-28 | when the timeline is in creation order, so are the active elements |
| WhiteboardHub.AddMember | RealtimeWhiteboard/Hubs/WhiteboardHub.cs:140 | joining adds the connection to the session's group and leaves other groups alone |
| WhiteboardHub.RemoveMember | RealtimeWhiteboard/Hubs/WhiteboardHub.cs:165 | leaving removes the connection from the session's group only |
| WhiteboardHub.SessionState.constructor | RealtimeWhiteboard/Hubs/WhiteboardHub.cs:95 | a new state holds the loaded elements and an empty redo stack |
| WhiteboardHub.Hub.TryAddSession | RealtimeWhiteboard/Hubs/WhiteboardHub.cs:97-107 | the new state is cached unless an entry exists, and the cached entry is returned either way |
| WhiteboardHub.Hub.GetOrCreateSessionState | RealtimeWhiteboard/Hubs/WhiteboardHub.cs:66-113 | a cached state is returned as is. On a miss: a caller holding the lock waits forever; a failing query caches nothing; otherwise a fresh state of the active rows, oldest first, with an empty redo stack, is cached and is in step with the store |
| WhiteboardHub.Hub.CreateSession | RealtimeWhiteboard/Hubs/WhiteboardHub.cs:115-127 | a new session is loaded, and the caller is added to its group only once the load succeeded. The outcome is Hung exactly when the identifier is uncached and its lock stuck (which then adds it to `hung`), and QueryFailed exactly when the query raises. Only a successful load on a miss changes the cache, by adding one fresh state of the active rows, oldest first, in step with the store |
| WhiteboardHub.Hub.JoinSession | RealtimeWhiteboard/Hubs/WhiteboardHub.cs:129-160 | an empty identifier is ignored. Otherwise the caller joins the group first, and after a successful load it receives the active elements in order, with can-undo = some element is active and can-redo = the redo stack is not empty. A cached session always succeeds and leaves the cache alone. On a miss: Hung exactly when the lock is stuck, QueryFailed exactly when the query raises, and otherwise one fresh state of the active rows, oldest first, in step with the store, is cached; no other entry and nothing in `hung` changes except on Hung |
| WhiteboardHub.Hub.LeaveSession | RealtimeWhiteboard/Hubs/WhiteboardHub.cs:162-169 | the caller leaves the group; the cached state stays |
| WhiteboardHub.Hub.SendCursorPosition | RealtimeWhiteboard/Hubs/WhiteboardHub.cs:248-253 | a non-empty session relays the position to the others in the group, and nothing else changes |
| WhiteboardHub.Hub.Enter | RealtimeWhiteboard/Hubs/WhiteboardHub.cs:174-184 | a mutation proceeds exactly for a non-empty, non-stuck, cached session; an uncached one waits forever on its own lock |
| WhiteboardHub.Hub.CommitDrawing | RealtimeWhiteboard/Hubs/WhiteboardHub.cs:188-229 | the save comes first. A failing save changes neither memory nor store nor events. A successful one appends the element under its new identity, clears the redo stack, keeps the session in step and broadcasts with can-undo true, can-redo false |
| WhiteboardHub.Hub.SendDrawingAction | RealtimeWhiteboard/Hubs/WhiteboardHub.cs:171-245 | the whole draw request: ignored, hung, failed with nothing changed, or applied as above; other sessions unchanged |
| WhiteboardHub.Hub.ApplyUndo | RealtimeWhiteboard/Hubs/WhiteboardHub.cs:268-296 | nothing to undo leaves everything unchanged. Otherwise memory takes the undo step before the save; a failing save keeps the step, writes and broadcasts nothing, and leaves the store out of step; a successful one flags the row inactive and broadcasts the identity with the new flags |
| WhiteboardHub.Hub.Undo | RealtimeWhiteboard/Hubs/WhiteboardHub.cs:255-306 | the whole undo request, including the ignored and hung cases |
| WhiteboardHub.Hub.ApplyRedo | RealtimeWhiteboard/Hubs/WhiteboardHub.cs:321-354 | an empty redo stack leaves everything unchanged. Otherwise memory takes the redo step before the save; a failing save keeps the step and broadcasts nothing; a successful one flags the row active and broadcasts the element with the new flags |
| WhiteboardHub.Hub.Redo | RealtimeWhiteboard/Hubs/WhiteboardHub.cs:308-364 | the whole redo request, including the ignored and hung cases |
| LocalHistory.IndexOfId | RealtimeWhiteboard/wwwroot/js/canvasInterop.js:391 | the first position holding the identity, or -1 when none does |
| LocalHistory.WithoutAppend | RealtimeWhiteboard/wwwroot/js/canvasInterop.js:374 | the filter distributes over concatenation, so kept entries keep their order |
| LocalHistory.WithoutMembers | RealtimeWhiteboard/wwwroot/js/canvasInterop.js:374 | an entry survives the filter exactly when it lacks the identity |
| LocalHistory.WithoutShrinks | RealtimeWhiteboard/wwwroot/js/canvasInterop.js:373-380 | the list gets shorter exactly when the identity is present; an absent identity leaves it unchanged |
| LocalHistory.WithoutIdempotent | RealtimeWhiteboard/wwwroot/js/canvasInterop.js:374 | filtering the same identity twice equals filtering it once |
| LocalHistory.WithoutOrdered | RealtimeWhiteboard/wwwroot/js/canvasInterop.js:374 | two kept entries come from positions in the same order |
| LocalHistory.WithoutKeepsUnique | RealtimeWhiteboard/wwwroot/js/canvasInterop.js:374 | filtering keeps identities unique |
| LocalHistory.UpsertReplaces | RealtimeWhiteboard/wwwroot/js/canvasInterop.js:391-395 | a known identity replaces its first entry in place; length and other entries unchanged |
| LocalHistory.UpsertAppends | RealtimeWhiteboard/wwwroot/js/canvasInterop.js:396-397 | a new identity is appended at the end |
| LocalHistory.UpsertKeepsUnique | RealtimeWhiteboard/wwwroot/js/canvasInterop.js:391-397 | an upsert never duplicates an identity, and the action is in the list afterwards |
| LocalHistory.UpsertIdempotent | RealtimeWhiteboard/wwwroot/js/canvasInterop.js:391-397 | a repeated upsert of the same action changes nothing |
| LocalHistory.UndoAfterUpsert | RealtimeWhiteboard/wwwroot/js/canvasInterop.js:372-397 | filtering an identity after upserting it equals filtering without the upsert |
| LocalHistory.LocalDrawingHistory.constructor | RealtimeWhiteboard/wwwroot/js/canvasInterop.js:14 | the list starts empty |
| LocalHistory.LocalDrawingHistory.ProcessInitialHistory | RealtimeWhiteboard/wwwroot/js/canvasInterop.js:278-285 | a non-array snapshot empties the list; an array replaces it with a copy |
| LocalHistory.LocalDrawingHistory.UndoActionById | RealtimeWhiteboard/wwwroot/js/canvasInterop.js:372-382 | the list loses exactly the entries with the identity, in order, and the found flag holds exactly when the identity was present |
| LocalHistory.LocalDrawingHistory.FindIndex | RealtimeWhiteboard/wwwroot/js/canvasInterop.js:391 | the first position with the identity, or -1 when there is none |
| LocalHistory.LocalDrawingHistory.DrawRemoteAction | RealtimeWhiteboard/wwwroot/js/canvasInterop.js:384-420 | without a canvas or without an identity the list is unchanged; otherwise the action is upserted |
| Mirror.MirrorAfterDraw | RealtimeWhiteboard/wwwroot/js/canvasInterop.js:396-397 | a mirroring list still mirrors the active elements after a broadcast draw |
| Mirror.MirrorAfterUndo | RealtimeWhiteboard/wwwroot/js/canvasInterop.js:372-374 | the undone identity is the last entry on both sides and leaves both |
| Mirror.MirrorAfterRedo | RealtimeWhiteboard/wwwroot/js/canvasInterop.js:391-397 | a redone element, absent from the list since its undo, is appended on both sides |
| Simplify.FarthestPoint | RealtimeWhiteboard/wwwroot/js/canvasInterop.js:40-49 | the first interior point at the largest positive distance, or position 0 with distance 0; every interior distance is at most the result |
| Simplify.SliceSegmentClose | RealtimeWhiteboard/wwwroot/js/canvasInterop.js:52-53 | a tolerance met within a slice is met within the whole stroke |
| Simplify.JoinEmbedding | RealtimeWhiteboard/wwwroot/js/canvasInterop.js:51-54 | joining the halves without the repeated split point gives a subsequence that keeps both end points |
| Simplify.JoinTolerance | RealtimeWhiteboard/wwwroot/js/canvasInterop.js:51-54 | every segment of the joined result keeps the tolerance of the half it comes from |
| Simplify.RamerDouglasPeucker | RealtimeWhiteboard/wwwroot/js/canvasInterop.js:36-58 | fewer than two points come back unchanged. Otherwise: a subsequence keeping both end points; every dropped point within epsilon of its kept neighbours' line; exactly the two end points when every interior point is within epsilon, and at least three points otherwise |

## Left out

- Concurrency: calls run one at a time. Per-session locks appear only through `hung`, the sessions whose lock is held forever by a stuck call. `TryAddSession` still covers both the add and the already-added branch.
- The store is a map of rows, not a database. Change tracking, the per-call database context and the query translation are not modelled.
- The SignalR group and client plumbing are not modelled. Broadcasts are appended to an event log, and groups are a map from session to connections.
- Clock and identifier: the clock and the new session identifier are parameters.
- Floating point:
  - doubles are reals;
  - the square root is the parameter `sqrt`;
  - the perpendicular distance (canvasInterop.js:18-34) is the parameter `dist`, about which nothing is assumed.
- Hydration order: the store's ordering of rows with equal creation time is unspecified. The model breaks such ties by identity.
- Aliasing: elements are values. The source mutates one shared element object when it flips the active flag. In the model, memory and store each hold their own copy, and the hub writes the same value to both.
- Null inputs are not modelled: a null request, a null session identifier (only the empty one is), or a null remote action in the browser.
- The browser's JSON deep copy is an identity on values. Losing `undefined` or non-finite fields in that copy is not modelled.
- SignalR sends and group changes are assumed never to raise. In the source, a send that throws (WhiteboardHub.cs:229, :287, :345) is caught after memory and store have already changed, so no event goes out; the model always records the event.
- Rendering, input handling, cursor animation and logging are not modelled, on both server and browser.
- `DrawRemoteAction`: whether the canvas is ready is the parameter `canvasReady`.
- Mirror: the component that forwards each broadcast to the matching browser function is not part of this model. The mirror lemmas take that forwarding as given.
- Simplify.RamerDouglasPeucker: requires a non-negative epsilon when there are two or more points. With a negative epsilon, the recursion reaches an input of the same length and never terminates. The only caller passes 1.0 (canvasInterop.js:247).
