# Live canvas surface: cursor modes, presence and reaction buffer

This project models the local interaction logic of the collaborative
whiteboard's live canvas surface (`components/Live.tsx`). That logic has three parts:

- **Cursor-mode state machine.** The cursor is in exactly one of four states:
  `Hidden`, `Chat{previousMessage, message}`, `ReactionSelector` or
  `Reaction{reaction, isPressed}`. Key releases (`/`, `Escape`, `e`),
  context-menu commands (`Chat`, `Reactions`, `Undo`, `Redo`), picking a
  reaction and pointer press, release and leave move it between states.
- **Local presence fields.** The `cursor` (a nullable point relative to the
  canvas) and the `message` that the surface publishes to peers.
- **Reaction buffer.** An ordered list of `{point, value, timestamp}` records.
  A 1000 ms tick prunes it to the entries newer than `now - 4000`. Two sources
  append to it: a 100 ms tick that emits while a reaction is pressed over a known
  cursor (it also broadcasts the event to peers), and a peer's broadcast on arrival.

Modules:

- `LiveTypes` (`types.dfy`): nullable values, points, the broadcast payload
  `{x, y, value}`, and the undo/redo calls.
- `CursorMachine` (`cursor_machine.dfy`): the cursor states and the pure state
  updaters (`Pressed`, `Step`). `Run` folds `Step` over a sequence of inputs.
  Lemmas state what holds over any run.
- `ReactionBuffer` (`reaction_buffer.dfy`): the reaction record, the
  time-window prune and the conversions between a record and a broadcast
  event, with lemmas on pruning (order, idempotence, later prunes, appends).
- `LiveSurface` (`live.dfy`): class `Live` holds the cursor state, the buffer,
  the presence fields, and two output logs: broadcasts sent and history
  calls made. It has one method per handler or timer tick. Each method's
  `modifies` frame names the only fields it may change, and its `ensures`
  ties the new cursor state to `CursorMachine.Step` and the new buffer to
  `ReactionBuffer.Prune` or to an append. Four client methods follow the
  surface through short scenarios.

The clock is a parameter (`now`). Each timer tick or callback is one method
call, so the model has no concurrency.

Two behaviours of the code that the model keeps as written:

- `components/Live.tsx:75` sets `isPressed: true` on pointer up, as pointer
  down does, so releasing the pointer does not end a press. Once a reaction is
  pressed it stays pressed until another input leaves Reaction mode or a new
  reaction is picked; `CursorMachine.NoPickKeepsReaction` proves this.
- `components/Live.tsx:41` keeps the entries with `timestamp > now - 4000`,
  so an entry exactly 4000 ms old is dropped.

## Model

| member | source | states |
|---|---|---|
| `CursorMachine.Step` | components/Live.tsx:56-124 | Picking a reaction yields `Reaction{v, false}`. Every other input, including the press updaters of lines 68 and 75, either leaves Reaction mode or stays in it: it never enters Reaction mode, never changes the reaction, and never clears `isPressed`. |
| `CursorMachine.KeyUpOpens` | components/Live.tsx:104-124 | From any state, `/` yields `Chat{null, ""}`, `e` yields `ReactionSelector`, and `Escape` yields `Hidden`. |
| `CursorMachine.UnhandledInputsKeepState` | components/Live.tsx:84-124 | Any other key and any other command name (including `Undo` and `Redo`) leave the cursor state unchanged. |
| `CursorMachine.RunConcat` | components/Live.tsx:56-124 | Handling two input sequences one after the other is the same as handling their concatenation. |
| `CursorMachine.NoPickNeverEntersReaction` | components/Live.tsx:80-82 | Only picking a reaction enters Reaction mode. A run with no pick that starts outside Reaction mode ends outside it. |
| `CursorMachine.NoPickKeepsReaction` | components/Live.tsx:61-78 | Across any run with no pick, if Reaction mode is still active it holds the same reaction. Once `isPressed` is true it stays true. |
| `CursorMachine.LastPickDecides` | components/Live.tsx:80-82 | When a run ends in Reaction mode, its reaction is the value of the last pick. |
| `CursorMachine.PickThenPress` | components/Live.tsx:61-82 | Picking `v` and then pressing or releasing the pointer yields `Reaction{v, true}`. |
| `ReactionBuffer.Prune` | components/Live.tsx:40-42 | Never grows the buffer. Every entry it keeps has `timestamp > now - 4000`. |
| `ReactionBuffer.PruneKeepsExactlyFresh` | components/Live.tsx:41 | The prune keeps exactly the entries with `timestamp > now - 4000`, each as many times as it occurs, and no other entry. |
| `ReactionBuffer.PruneConcat` | components/Live.tsx:41 | Pruning distributes over concatenation, so the kept entries stay in their original order. |
| `ReactionBuffer.PruneKeepsFresh` | components/Live.tsx:41 | A buffer whose entries are all fresh is kept whole. |
| `ReactionBuffer.PruneLater` | components/Live.tsx:40-42 | A prune at time `t2` after a prune at an earlier time `t1` equals the prune at `t2` alone. |
| `ReactionBuffer.PruneIdempotent` | components/Live.tsx:41 | At a fixed `now`, pruning twice equals pruning once. |
| `ReactionBuffer.PruneAppend` | components/Live.tsx:40-54 | An appended entry is pruned like the earlier ones. If it is fresh, it survives at the end, after the surviving earlier entries. |
| `ReactionBuffer.EntryLifetime` | components/Live.tsx:41 | An entry stamped `t` survives a prune at `now` exactly when `now < t + 4000`. |
| `ReactionBuffer.EventRoundTrip` | components/Live.tsx:44-54 | A peer receiving an emitted event at its emission time adds the entry the sender added. An event survives the trip into the buffer and back unchanged. |
| `LiveSurface.Live.constructor` | components/Live.tsx:22-25 | The surface starts `Hidden`, with an empty buffer, no cursor and no message in presence, and empty logs. |
| `LiveSurface.Live.HandlePointerMove` | components/Live.tsx:27-36 | Publishes the cursor at `(clientX - rectX, clientY - rectY)` unless a cursor is known and the selector is open, in which case presence is unchanged. No other field changes. |
| `LiveSurface.Live.HandlePointerMoveAsCompiled` | components/Live.tsx:27-36 | The handler as the source runs it: its guard reads the first render's values (no cursor, `Hidden`), so it always publishes `(clientX - rectX, clientY - rectY)`. |
| `LiveSurface.Live.HandlePointerLeave` | components/Live.tsx:56-59 | Mode becomes `Hidden`, and the presence cursor and message become null. |
| `LiveSurface.Live.HandlePointerDown` | components/Live.tsx:61-71 | Always publishes the relative cursor. In Reaction mode it sets `isPressed` and keeps the reaction. Otherwise the cursor state is unchanged. |
| `LiveSurface.Live.HandlePointerUp` | components/Live.tsx:73-78 | In Reaction mode it sets `isPressed` to true and keeps the reaction. Otherwise it changes nothing. |
| `LiveSurface.Live.SetReactions` | components/Live.tsx:80-82 | The cursor state becomes `Reaction{reaction, false}`. |
| `LiveSurface.Live.HandleContextMenuClick` | components/Live.tsx:84-101 | `Chat` gives `Chat{null, ""}` and `Reactions` gives `ReactionSelector`. `Undo` and `Redo` each log exactly one call and keep the state. Any other name changes nothing. |
| `LiveSurface.Live.OnKeyUp` | components/Live.tsx:103-124 | `/` opens an empty chat. `Escape` hides the cursor and sets the presence message to `""`. `e` opens the selector. Any other key changes nothing. |
| `LiveSurface.Live.PruneTick` | components/Live.tsx:40-42 | The buffer becomes its prune at `now`. Every survivor is newer than `now - 4000`. |
| `LiveSurface.Live.EmitTick` | components/Live.tsx:44-49 | When a reaction is pressed and a cursor is known, appends exactly one entry `{cursor, reaction, now}` and broadcasts the same point and value. Otherwise the buffer and the broadcast log are unchanged. |
| `LiveSurface.Live.OnPeerEvent` | components/Live.tsx:51-54 | Appends exactly one entry with the event's point and value, stamped `now`, at the end. Earlier entries are unchanged. |
| `LiveSurface.MoveWhileHidden` | components/Live.tsx:27-36 | A pointer move at relative `(x, y)`, with mode `Hidden` and a known cursor, publishes cursor `(x, y)`. |
| `LiveSurface.MoveWithSelectorOpen` | components/Live.tsx:27-36 | With a cursor at `(1, 2)` and the selector open, a move to `(7, 9)` is published by the as-compiled handler but suppressed by the guarded one. |
| `LiveSurface.PressAndHold` | components/Live.tsx:44-82 | Pick, press, tick, release, tick shows two entries and broadcasts two events. The press survives the pointer's release. |
| `LiveSurface.ReceiveThenPrune` | components/Live.tsx:40-54 | A received event followed by a prune within 4000 ms leaves exactly one entry with its point and value, stamped on receipt. |

## Left out

- Rendering and JSX (`components/Live.tsx:141-172`) and the child components:
  flying reactions, cursor chat, live cursors, comments and the context menu.
  The chat draft typed through the cursor-chat component is not part of this
  model.
- Closure capture by `useCallback` with empty dependency lists: apart from
  `LiveSurface.Live.HandlePointerMoveAsCompiled`, every guard is evaluated on
  the current state. The other handlers memoised this way
  (`components/Live.tsx:59, 82, 101`) read no state, so nothing else is lost.
- The realtime presence, broadcast and event-listener hooks belong to the
  external realtime service. Presence is two fields (the untouched
  `cursorColor` and `editingText` are omitted), broadcasts are an appended
  log, and the CRDT merging of remote state is not modelled. The initial
  presence message is absent, so it is modelled as null.
- `LiveSurface.Live.PruneTick`: the source reads the clock once per entry
  inside the filter. The model uses one clock reading `now` for the whole
  prune.
- Timers and the clock: `useInterval` and `Date.now` become a method call per
  tick with `now` as a parameter. Timestamps and coordinates are integers,
  not floating-point numbers.
- Window key-listener registration and teardown, `preventDefault` on `/` and
  on pointer move, and the `console.log` on `e`. None of these changes the
  modelled state.
- The `undo` and `redo` callbacks belong to the external history
  collaborator. The model only logs that each was called.
- `components/rightsidebar/index.tsx` sets an editing flag, updates a React
  state record and forwards to `modifyShape`. `modifyShape` lives in
  `lib/shapes`, which is not part of this model.
- `app/Room.tsx` only configures the provider and has no logic. Only its
  initial presence values are reflected, in `LiveSurface.Live.constructor`.

## Findings

| source | as written | input that shows it | evidently intended | confidence | as-written member | corrected member |
|---|---|---|---|---|---|---|
| components/Live.tsx:27-36 | `handlePointerMove` is memoised with an empty dependency list, so the guard at line 30 reads the first render's `cursor` (null, per app/Room.tsx:11) and `cursorState` (`Hidden`); it is always true and every move is published | cursor at `(1, 2)`, `e` opens the reaction selector, pointer moves to `(7, 9)`: presence becomes `(7, 9)` | while the selector is open over a known cursor, moves are not published and the cursor stays put | medium, not executed | `LiveSurface.Live.HandlePointerMoveAsCompiled`, `LiveSurface.MoveWithSelectorOpen` | `LiveSurface.Live.HandlePointerMove` |
