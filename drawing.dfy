/**
 * The persistent drawing element of a whiteboard session, the records that
 * travel between clients and the hub, and the events the hub sends out.
 * Doubles are modelled as `real`; timestamps as integer ticks.
 */
module Drawing {

  datatype Option<T> = None | Some(value: T)

  /** One stored drawing element. `id` is 0 until the store assigns one. */
  datatype DrawingElement = DrawingElement(
    id: int,
    sessionId: string,
    toolType: string,
    x1: real, y1: real, x2: real, y2: real,
    radius: Option<real>,
    color: Option<string>,
    lineWidth: Option<real>,
    strokeDataJson: Option<string>,
    createdAt: int,
    isActive: bool)

  /** What a client submits: an element before the store has given it an identity. */
  datatype DrawingActionInput = DrawingActionInput(
    sessionId: string,
    toolType: string,
    x1: real, y1: real, x2: real, y2: real,
    color: Option<string>,
    lineWidth: Option<real>,
    strokeDataJson: Option<string>)

  /** What the hub broadcasts for one element: the element without its timestamp and flag. */
  datatype DrawingAction = DrawingAction(
    id: int,
    sessionId: string,
    toolType: string,
    x1: real, y1: real, x2: real, y2: real,
    color: Option<string>,
    lineWidth: Option<real>,
    strokeDataJson: Option<string>,
    radius: Option<real>)

  /** Messages the hub sends; `group` is the session the message fans out to. */
  datatype Event =
    | ReceiveSessionHistory(caller: string, history: seq<DrawingAction>, canUndo: bool, canRedo: bool)
    | ReceiveDrawingAction(group: string, action: DrawingAction, canUndo: bool, canRedo: bool)
    | ActionUndone(group: string, elementId: int, canUndo: bool, canRedo: bool)
    | ReceiveRedoneAction(group: string, action: DrawingAction, canUndo: bool, canRedo: bool)
    | ReceiveCursorPosition(group: string, except: string, x: real, y: real)

  const CircleTool := "circle"

  /** The squared Euclidean distance between the two coordinate pairs of a request. */
  function SquaredLength(input: DrawingActionInput): real
  {
    (input.x2 - input.x1) * (input.x2 - input.x1) + (input.y2 - input.y1) * (input.y2 - input.y1)
  }

  /**
   * The element a draw request creates: stamped with `now`, active, and with a
   * radius only for circles. `sqrt` stands for the platform square root.
   */
  function NewElement(input: DrawingActionInput, now: int, sqrt: real -> real): (e: DrawingElement)
    ensures e.isActive && e.createdAt == now && e.sessionId == input.sessionId
    ensures e.toolType == input.toolType
    ensures (e.x1, e.y1, e.x2, e.y2) == (input.x1, input.y1, input.x2, input.y2)
    ensures e.radius.Some? <==> input.toolType == CircleTool
    ensures e.radius.Some? ==> e.radius.value == sqrt(SquaredLength(input))
    ensures (e.color, e.lineWidth, e.strokeDataJson) == (input.color, input.lineWidth, input.strokeDataJson)
    ensures e.id == 0
  {
    DrawingElement(0, input.sessionId, input.toolType,
                   input.x1, input.y1, input.x2, input.y2,
                   if input.toolType == CircleTool then Some(sqrt(SquaredLength(input))) else None,
                   input.color, input.lineWidth, input.strokeDataJson,
                   now, true)
  }

  /** The broadcast form of an element: every field but the timestamp and the active flag, radius included. */
  function ToAction(e: DrawingElement): (r: DrawingAction)
    ensures r.id == e.id && r.sessionId == e.sessionId && r.toolType == e.toolType
    ensures (r.x1, r.y1, r.x2, r.y2) == (e.x1, e.y1, e.x2, e.y2)
    ensures (r.color, r.lineWidth, r.strokeDataJson, r.radius) == (e.color, e.lineWidth, e.strokeDataJson, e.radius)
  {
    DrawingAction(e.id, e.sessionId, e.toolType, e.x1, e.y1, e.x2, e.y2,
                  e.color, e.lineWidth, e.strokeDataJson, e.radius)
  }

  /** The broadcast form of a whole sequence, in order. */
  function ToActions(s: seq<DrawingElement>): (r: seq<DrawingAction>)
    ensures |r| == |s|
    ensures forall i :: 0 <= i < |s| ==> r[i] == ToAction(s[i])
  {
    seq(|s|, i requires 0 <= i < |s| => ToAction(s[i]))
  }

  /**
   * The broadcast form loses exactly the timestamp and the active flag: two
   * elements broadcast alike if and only if they agree on everything else.
   */
  lemma ToActionForgetsOnlyTimeAndFlag(a: DrawingElement, b: DrawingElement)
    ensures ToAction(a) == ToAction(b) <==> a.(createdAt := 0, isActive := true) == b.(createdAt := 0, isActive := true)
  {
    if ToAction(a) == ToAction(b) {
      assert a.(createdAt := 0, isActive := true) == b.(createdAt := 0, isActive := true);
    }
  }

  /** Two elements describe the same stored record, whatever their active flags. */
  predicate SameRecord(a: DrawingElement, b: DrawingElement)
  {
    a.(isActive := true) == b.(isActive := true)
  }
}
