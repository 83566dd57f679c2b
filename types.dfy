/**
 * Values shared by the live canvas surface: nullable values, canvas points,
 * the payload of a reaction broadcast and the calls made to the history
 * (undo/redo) collaborator.
 */
module LiveTypes {

  /** A nullable value: `None` stands for JavaScript's `null` (or an absent field). */
  datatype Option<+T> = None | Some(value: T)

  /** A point relative to the canvas's bounding box; browser coordinates are taken as integers. */
  datatype Point = Point(x: int, y: int)

  /** The custom event payload `{x, y, value}` sent to and received from peers. */
  datatype BroadcastEvent = BroadcastEvent(x: int, y: int, value: string)

  /** An invocation of the external history collaborator's `undo` or `redo` callback. */
  datatype HistoryCall = UndoCall | RedoCall
}
