/**
 * The cursor-mode state machine of the live canvas surface: the four cursor
 * states, the inputs that change them (key releases, context-menu commands,
 * picking a reaction, pointer press, release and leave), the state updater
 * each input applies, and what follows for any sequence of inputs.
 */
module CursorMachine {
  import opened LiveTypes

  /** Exactly one cursor mode is active; Chat and Reaction carry their own data. */
  datatype CursorState =
    | Hidden
    | Chat(previousMessage: Option<string>, message: string)
    | ReactionSelector
    | Reaction(reaction: string, isPressed: bool)

  /** The inputs that reach the cursor state. Pointer moves and timer ticks never change it. */
  datatype Input =
    | KeyUp(key: string)
    | ContextMenu(name: string)
    | PickReaction(picked: string)
    | PointerDown
    | PointerUp
    | PointerLeave

  /** The state both `/` and the "Chat" command open: no previous message, empty draft. */
  const OpenChat: CursorState := Chat(None, "")

  /**
   * The updater used by pointer down and pointer up: in Reaction mode the
   * state is copied with `isPressed` set to true; any other state is kept.
   */
  function Pressed(s: CursorState): CursorState
  {
    if s.Reaction? then s.(isPressed := true) else s
  }

  /** The new cursor state after one input. */
  function Step(s: CursorState, input: Input): (r: CursorState)
    ensures input.PickReaction? ==> r == Reaction(input.picked, false)
    // Outside a pick, Reaction mode is never entered, its reaction never
    // changes and a press is never released.
    ensures !input.PickReaction? && r.Reaction? ==>
              s.Reaction? && r.reaction == s.reaction && (s.isPressed ==> r.isPressed)
  {
    match input
    case KeyUp(key) =>
      if key == "/" then OpenChat
      else if key == "Escape" then Hidden
      else if key == "e" then ReactionSelector
      else s
    case ContextMenu(name) =>
      if name == "Chat" then OpenChat
      else if name == "Reactions" then ReactionSelector
      else s
    case PickReaction(v) => Reaction(v, false)
    case PointerDown => Pressed(s)
    case PointerUp => Pressed(s)
    case PointerLeave => Hidden
  }

  /** The state reached from `s` after the inputs, handled one at a time in order. */
  function Run(s: CursorState, inputs: seq<Input>): CursorState
    decreases |inputs|
  {
    if inputs == [] then s else Run(Step(s, inputs[0]), inputs[1..])
  }

  /** No input in the sequence picks a reaction. */
  predicate NoPick(inputs: seq<Input>)
  {
    forall i :: 0 <= i < |inputs| ==> !inputs[i].PickReaction?
  }

  /** From any state, `/` opens an empty chat, `e` the reaction selector and `Escape` hides the cursor. */
  lemma KeyUpOpens(s: CursorState)
    ensures Step(s, KeyUp("/")) == OpenChat
    ensures Step(s, KeyUp("e")) == ReactionSelector
    ensures Step(s, KeyUp("Escape")) == Hidden
  {
  }

  /** The "Undo" and "Redo" commands, and any unknown command or key, leave the state as it is. */
  lemma UnhandledInputsKeepState(s: CursorState, key: string, name: string)
    requires key != "/" && key != "Escape" && key != "e"
    requires name != "Chat" && name != "Reactions"
    ensures Step(s, KeyUp(key)) == s
    ensures Step(s, ContextMenu(name)) == s
  {
  }

  /** Running two input sequences one after the other is running their concatenation. */
  lemma {:induction false} RunConcat(s: CursorState, a: seq<Input>, b: seq<Input>)
    ensures Run(s, a + b) == Run(Run(s, a), b)
    decreases |a|
  {
    if a == [] {
      assert a + b == b;
    } else {
      assert (a + b)[0] == a[0];
      assert (a + b)[1..] == a[1..] + b;
      RunConcat(Step(s, a[0]), a[1..], b);
    }
  }

  /** Without picking a reaction, a state outside Reaction mode never reaches it. */
  lemma {:induction false} NoPickNeverEntersReaction(s: CursorState, inputs: seq<Input>)
    requires !s.Reaction? && NoPick(inputs)
    ensures !Run(s, inputs).Reaction?
    decreases |inputs|
  {
    if inputs != [] {
      NoPickNeverEntersReaction(Step(s, inputs[0]), inputs[1..]);
    }
  }

  /**
   * Without picking a reaction, whenever Reaction mode is still active it
   * holds the same reaction, and once pressed it stays pressed: no input
   * ever sets `isPressed` back to false.
   */
  lemma {:induction false} NoPickKeepsReaction(s: CursorState, inputs: seq<Input>)
    requires s.Reaction? && NoPick(inputs)
    ensures Run(s, inputs).Reaction? ==>
              Run(s, inputs).reaction == s.reaction && (s.isPressed ==> Run(s, inputs).isPressed)
    decreases |inputs|
  {
    if inputs != [] {
      var next := Step(s, inputs[0]);
      if next.Reaction? {
        NoPickKeepsReaction(next, inputs[1..]);
      } else {
        NoPickNeverEntersReaction(next, inputs[1..]);
      }
    }
  }

  /** While Reaction mode is active, its reaction is the one picked last. */
  lemma LastPickDecides(s: CursorState, inputs: seq<Input>, k: nat)
    requires k < |inputs| && inputs[k].PickReaction? && NoPick(inputs[k + 1..])
    ensures Run(s, inputs).Reaction? ==> Run(s, inputs).reaction == inputs[k].picked
  {
    var before, after := inputs[..k + 1], inputs[k + 1..];
    assert inputs == before + after;
    RunConcat(s, before, after);
    assert before == inputs[..k] + [inputs[k]];
    RunConcat(s, inputs[..k], [inputs[k]]);
    var picked := Run(s, before);
    assert picked == Reaction(inputs[k].picked, false);
    NoPickKeepsReaction(picked, after);
  }

  /** Picking a reaction and then pressing the pointer leaves the reaction pressed. */
  lemma PickThenPress(s: CursorState, v: string)
    ensures Run(s, [PickReaction(v), PointerDown]) == Reaction(v, true)
    ensures Run(s, [PickReaction(v), PointerUp]) == Reaction(v, true)
  {
    var picked := Reaction(v, false);
    assert [PickReaction(v), PointerDown][1..] == [PointerDown];
    assert Run(picked, [PointerDown]) == Run(Reaction(v, true), []);
    assert [PickReaction(v), PointerUp][1..] == [PointerUp];
    assert Run(picked, [PointerUp]) == Run(Reaction(v, true), []);
  }
}
