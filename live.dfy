/**
 * The Live collaboration surface as an object: its cursor state, its reaction
 * buffer, the local user's presence fields (cursor and message), and two
 * output logs recording the broadcasts sent to peers and the calls made to
 * the history collaborator. Each event handler and timer tick is one method;
 * the clock reading `now` is passed in.
 */
module LiveSurface {
  import opened LiveTypes
  import CM = CursorMachine
  import RB = ReactionBuffer

  class Live {
    /** The local cursor mode. */
    var cursorState: CM.CursorState
    /** The reactions currently shown, oldest first. */
    var reactions: seq<RB.Reaction>
    /** The presence field `cursor`, published to peers. */
    var presenceCursor: Option<Point>
    /** The presence field `message`, published to peers. */
    var presenceMessage: Option<string>
    /** Every event broadcast to peers, in order. */
    var broadcasts: seq<BroadcastEvent>
    /** Every call made to the history collaborator, in order. */
    var historyCalls: seq<HistoryCall>

    /** The surface as mounted: cursor hidden, no reactions, no cursor and no message in presence. */
    constructor ()
      ensures cursorState == CM.Hidden && reactions == []
      ensures presenceCursor == None && presenceMessage == None
      ensures broadcasts == [] && historyCalls == []
    {
      cursorState := CM.Hidden;
      reactions := [];
      presenceCursor := None;
      presenceMessage := None;
      broadcasts := [];
      historyCalls := [];
    }

    /** True when the 100 ms tick emits: a pressed reaction and a cursor in presence. */
    predicate Emitting()
      reads this
    {
      cursorState.Reaction? && cursorState.isPressed && presenceCursor.Some?
    }

    /**
     * Pointer move: publishes the pointer's position relative to the canvas,
     * except while the reaction selector is open over a known cursor.
     */
    method HandlePointerMove(clientX: int, clientY: int, rectX: int, rectY: int)
      modifies this`presenceCursor
      ensures old(presenceCursor).None? || !cursorState.ReactionSelector? ==>
                presenceCursor == Some(Point(clientX - rectX, clientY - rectY))
      ensures old(presenceCursor).Some? && cursorState.ReactionSelector? ==>
                presenceCursor == old(presenceCursor)
    {
      if presenceCursor.None? || !cursorState.ReactionSelector? {
        var x := clientX - rectX;
        var y := clientY - rectY;
        presenceCursor := Some(Point(x, y));
      }
    }

    /**
     * Pointer move as the source runs it: the handler is memoised with no
     * dependencies, so its guard reads the cursor and cursor state of the
     * first render (no cursor, Hidden) and never suppresses the publish.
     */
    method HandlePointerMoveAsCompiled(clientX: int, clientY: int, rectX: int, rectY: int)
      modifies this`presenceCursor
      ensures presenceCursor == Some(Point(clientX - rectX, clientY - rectY))
    {
      var firstCursor: Option<Point> := None;
      var firstState := CM.Hidden;
      if firstCursor.None? || !firstState.ReactionSelector? {
        var x := clientX - rectX;
        var y := clientY - rectY;
        presenceCursor := Some(Point(x, y));
      }
    }

    /** Pointer leave: hides the cursor mode and clears cursor and message in presence. */
    method HandlePointerLeave()
      modifies this`cursorState, this`presenceCursor, this`presenceMessage
      ensures cursorState == CM.Step(old(cursorState), CM.PointerLeave)
      ensures cursorState == CM.Hidden
      ensures presenceCursor == None && presenceMessage == None
    {
      cursorState := CM.Hidden;
      presenceCursor, presenceMessage := None, None;
    }

    /**
     * Pointer down: always publishes the pointer's position; in Reaction mode
     * marks the reaction pressed, keeping its value.
     */
    method HandlePointerDown(clientX: int, clientY: int, rectX: int, rectY: int)
      modifies this`presenceCursor, this`cursorState
      ensures presenceCursor == Some(Point(clientX - rectX, clientY - rectY))
      ensures cursorState == CM.Step(old(cursorState), CM.PointerDown)
      ensures old(cursorState).Reaction? ==> cursorState == CM.Reaction(old(cursorState).reaction, true)
      ensures !old(cursorState).Reaction? ==> cursorState == old(cursorState)
    {
      var x := clientX - rectX;
      var y := clientY - rectY;
      presenceCursor := Some(Point(x, y));
      if cursorState.Reaction? {
        cursorState := cursorState.(isPressed := true);
      }
    }

    /**
     * Pointer up: in Reaction mode sets `isPressed` to true, exactly as
     * pointer down does; releasing the pointer does not clear the press.
     */
    method HandlePointerUp()
      modifies this`cursorState
      ensures cursorState == CM.Step(old(cursorState), CM.PointerUp)
      ensures old(cursorState).Reaction? ==> cursorState == CM.Reaction(old(cursorState).reaction, true)
      ensures !old(cursorState).Reaction? ==> cursorState == old(cursorState)
    {
      if cursorState.Reaction? {
        cursorState := cursorState.(isPressed := true);
      }
    }

    /** Picking a reaction in the selector: Reaction mode with that reaction, not pressed. */
    method SetReactions(reaction: string)
      modifies this`cursorState
      ensures cursorState == CM.Step(old(cursorState), CM.PickReaction(reaction))
      ensures cursorState == CM.Reaction(reaction, false)
    {
      cursorState := CM.Reaction(reaction, false);
    }

    /**
     * A context-menu command: "Chat" opens an empty chat, "Reactions" opens
     * the selector, "Undo" and "Redo" call the history collaborator once and
     * keep the cursor state; any other name does nothing.
     */
    method HandleContextMenuClick(key: string)
      modifies this`cursorState, this`historyCalls
      ensures cursorState == CM.Step(old(cursorState), CM.ContextMenu(key))
      ensures key == "Chat" ==> cursorState == CM.OpenChat
      ensures key == "Reactions" ==> cursorState == CM.ReactionSelector
      ensures key != "Chat" && key != "Reactions" ==> cursorState == old(cursorState)
      ensures historyCalls == old(historyCalls) + (if key == "Undo" then [UndoCall]
                                                   else if key == "Redo" then [RedoCall]
                                                   else [])
    {
      if key == "Chat" {
        cursorState := CM.OpenChat;
      } else if key == "Reactions" {
        cursorState := CM.ReactionSelector;
      } else if key == "Undo" {
        historyCalls := historyCalls + [UndoCall];
      } else if key == "Redo" {
        historyCalls := historyCalls + [RedoCall];
      }
    }

    /**
     * A key release: `/` opens an empty chat, `Escape` hides the cursor and
     * clears the presence message, `e` opens the reaction selector; any
     * other key does nothing.
     */
    method OnKeyUp(key: string)
      modifies this`cursorState, this`presenceMessage
      ensures cursorState == CM.Step(old(cursorState), CM.KeyUp(key))
      ensures key == "/" ==> cursorState == CM.OpenChat
      ensures key == "Escape" ==> cursorState == CM.Hidden
      ensures key == "e" ==> cursorState == CM.ReactionSelector
      ensures key != "/" && key != "Escape" && key != "e" ==> cursorState == old(cursorState)
      ensures presenceMessage == if key == "Escape" then Some("") else old(presenceMessage)
    {
      if key == "/" {
        cursorState := CM.OpenChat;
      }
      if key == "Escape" {
        presenceMessage := Some("");
        cursorState := CM.Hidden;
      }
      if key == "e" {
        cursorState := CM.ReactionSelector;
      }
    }

    /** The 1000 ms tick: drops every reaction that is not fresh at `now`. */
    method PruneTick(now: int)
      modifies this`reactions
      ensures reactions == RB.Prune(old(reactions), now)
      ensures forall i :: 0 <= i < |reactions| ==> reactions[i].timestamp > now - RB.WindowMs
    {
      reactions := RB.Prune(reactions, now);
    }

    /**
     * The 100 ms tick: while a reaction is pressed and presence has a cursor,
     * appends one reaction at the cursor stamped `now` and broadcasts the
     * same point and value; otherwise does nothing.
     */
    method EmitTick(now: int)
      modifies this`reactions, this`broadcasts
      ensures old(Emitting()) ==>
                var entry := RB.Reaction(presenceCursor.value, cursorState.reaction, now);
                reactions == old(reactions) + [entry] &&
                broadcasts == old(broadcasts) + [RB.ToEvent(entry)]
      ensures !old(Emitting()) ==> reactions == old(reactions) && broadcasts == old(broadcasts)
    {
      if Emitting() {
        var cursor := presenceCursor.value;
        reactions := reactions + [RB.Reaction(Point(cursor.x, cursor.y), cursorState.reaction, now)];
        broadcasts := broadcasts + [BroadcastEvent(cursor.x, cursor.y, cursorState.reaction)];
      }
    }

    /** A peer's broadcast arrives: one entry with its point and value, stamped `now`, is appended. */
    method OnPeerEvent(event: BroadcastEvent, now: int)
      modifies this`reactions
      ensures reactions == old(reactions) + [RB.FromEvent(event, now)]
      ensures |reactions| == |old(reactions)| + 1 && reactions[..|old(reactions)|] == old(reactions)
    {
      reactions := reactions + [RB.Reaction(Point(event.x, event.y), event.value, now)];
    }
  }

  /**
   * Pointer move at canvas-relative `(x, y)` while the cursor mode is
   * Hidden and presence already has a cursor: presence moves to `(x, y)`.
   */
  method MoveWhileHidden(x: int, y: int, rectX: int, rectY: int) returns (cursor: Option<Point>)
    ensures cursor == Some(Point(x, y))
  {
    var live := new Live();
    live.HandlePointerDown(rectX, rectY, rectX, rectY);
    live.HandlePointerMove(x + rectX, y + rectY, rectX, rectY);
    cursor := live.presenceCursor;
  }

  /**
   * With a cursor at `(1, 2)` and the reaction selector open, a move to
   * `(7, 9)` is published by the handler as the source runs it, while the
   * guarded handler keeps the cursor where the selector opened.
   */
  method MoveWithSelectorOpen() returns (asCompiled: Option<Point>, guarded: Option<Point>)
    ensures asCompiled == Some(Point(7, 9))
    ensures guarded == Some(Point(1, 2))
  {
    var first := new Live();
    first.HandlePointerDown(1, 2, 0, 0);
    first.OnKeyUp("e");
    first.HandlePointerMoveAsCompiled(7, 9, 0, 0);
    asCompiled := first.presenceCursor;

    var second := new Live();
    second.HandlePointerDown(1, 2, 0, 0);
    second.OnKeyUp("e");
    second.HandlePointerMove(7, 9, 0, 0);
    guarded := second.presenceCursor;
  }

  /**
   * Picking a reaction, pressing over `(x, y)` and letting two emit ticks
   * fire shows two reactions locally and broadcasts two events with the
   * same point and value; the press survives the pointer's release.
   */
  method PressAndHold(v: string, x: int, y: int, t: int) returns (shown: seq<RB.Reaction>, sent: seq<BroadcastEvent>)
    ensures shown == [RB.Reaction(Point(x, y), v, t), RB.Reaction(Point(x, y), v, t + 100)]
    ensures sent == [BroadcastEvent(x, y, v), BroadcastEvent(x, y, v)]
  {
    var live := new Live();
    live.SetReactions(v);
    live.HandlePointerDown(x, y, 0, 0);
    live.EmitTick(t);
    live.HandlePointerUp();
    live.EmitTick(t + 100);
    shown, sent := live.reactions, live.broadcasts;
  }

  /**
   * A received peer event, followed by a prune within the window, leaves
   * exactly one entry with the event's point and value, stamped on receipt.
   */
  method ReceiveThenPrune(event: BroadcastEvent, received: int, pruned: int) returns (shown: seq<RB.Reaction>)
    requires received <= pruned < received + RB.WindowMs
    ensures shown == [RB.Reaction(Point(event.x, event.y), event.value, received)]
  {
    var live := new Live();
    live.OnPeerEvent(event, received);
    live.PruneTick(pruned);
    shown := live.reactions;
    RB.PruneAppend([], RB.FromEvent(event, received), pruned);
  }
}
