# Basketball tactics board: geometry, players and free-draw strokes

This project models the logic of a single-page tactics board (`src/App.js`).
A court image is fitted into the stage. Players are stored in coordinates
relative to the fitted court rectangle and can be dragged around. A free-draw
layer records strokes in stage pixels, throttled in time. A two-state mode
(`play` or `draw`) decides which of the two receives pointer events.

Modules:

- `Wrappers`: `Option`, used for an image that has not loaded, a missing pointer position and absent patch fields.
- `Modes`: the interaction mode.
- `Geometry`: the court-rect fitter (`CourtRect`), the mapper between relative and stage coordinates (`RelToAbs`, `AbsToRel`) and the flattening of a player's trail into stage points (`TrailPoints`).
- `Players`: the player registry. Each updater that the source passes to the state setter is a pure function from the old list to the new one.
- `Persistence`: the start-up fallback for the saved player list.
- `Strokes`: the stroke recorder as pure transitions over a `Recorder` value. This is the specification.
- `Board`: the same recorder as a class. Its fields are the source's refs (`linesRef`, `currentLineIndex`, `isDrawing`, `lastDraw`) plus `mode`. Each handler updates them in place and is proved equal to its `Strokes` transition.

Inputs from the browser are parameters: the container size, the image's intrinsic size (or `None` before it loads), the clock reading (`Date.now()`) and the pointer position.

Two behaviours of the code are modelled as written:

- `absToRel` (src/App.js:124-127) divides by the rectangle's width and height with no guard. The model requires a non-degenerate rectangle rather than inventing a fallback value.
- Pointer-up closes a stroke only in draw mode (src/App.js:182). A stroke open when the mode switches to play stays open.

Source hazard: an undo or a clear while a stroke is open leaves `currentLineIndex` past the end of the line list. The next accepted pointer-move then reads `undefined` and throws (src/App.js:174-176). The model reports this as the `Faulted` outcome of a pointer-move. The state it leaves is the state the source leaves when it throws: `lastDraw` has already advanced and nothing else has changed. `Strokes.UndoOrClearMidStrokeFaults` and `Board.UndoMidStrokeThenMove` show that this state is reachable.

## Model

| member | source | states |
|---|---|---|
| `Geometry.CourtRect` | src/App.js:98-115 | With no image the rectangle is {0,0,0,0}. Otherwise it is centred: x = (W - width)/2 and y = (H - height)/2. |
| `Geometry.CourtRectFits` | src/App.js:98-115 | For positive sizes: width/height equals the image's ratio; 0 < width <= W and 0 < height <= H; one dimension equals the container's; x, y >= 0. |
| `Geometry.CourtRectExample` | src/App.js:98-115 | An 800x600 stage with a 400x200 image gives {0, 100, 800, 400}. |
| `Geometry.CourtRectInStage` | src/App.js:51-115 | For a window larger than the 20 by 100 margins, the court rectangle fitted into the stage (whole window in fullscreen, window less margins otherwise) lies inside the stage on both axes. |
| `Geometry.RelToAbs` | src/App.js:119-122 | For a non-degenerate rectangle, mapping a relative position to pixels and back gives the relative position. |
| `Geometry.AbsToRelToAbs` | src/App.js:124-127 | For a non-degenerate rectangle, mapping pixels to a relative position and back gives the pixels. |
| `Geometry.TrailPointsAt` | src/App.js:324-327 | The flattened trail has 2n entries; entries 2i and 2i+1 are the mapped x and y of trail point i. |
| `Players.JsRem` | src/App.js:138 | JavaScript's truncating `%`: in [0, n) for a non-negative dividend, in (-n, 0] for a negative one. |
| `Players.JsRemIsRemainder` | src/App.js:138 | The dividend is a multiple of n plus the truncating remainder; with the sign bounds this fixes the value. |
| `Players.MaxId` | src/App.js:132 | The result is at least every id in the list and equals one of them. |
| `Players.NextId` | src/App.js:132 | The new id exceeds every existing id; it is 1 for an empty list, otherwise one more than an existing id. |
| `Players.DefaultName` | src/App.js:135 | A default name is one letter between A and Z. |
| `Players.DefaultNameCycles` | src/App.js:135 | The name of player n+26 equals that of player n. |
| `Players.DefaultNameSequence` | src/App.js:135 | The first name is "A"; each next name is the next letter, and "Z" is followed by "A". |
| `Players.AddPlayer` | src/App.js:130-143 | Exactly one entry is appended; earlier entries are unchanged. The new entry has the next id, letter n mod 26, position (0.2 + 0.04n, 0.2 + 0.03n), hue (73*id) rem 360 and an empty trail. |
| `Players.AddPlayerKeepsIds` | src/App.js:132-138 | Adding keeps ids pairwise distinct. When existing ids are non-negative, the new id is >= 1 and its hue lies in [0, 360). |
| `Players.BuiltNextId` | src/App.js:132 | For a registry built from empty, the next id is its length plus one. |
| `Players.AddPlayerKeepsBuilt` | src/App.js:130-143 | Adding to a registry built from empty keeps entry i at id i+1, the i-th letter, the i-th staggered position and an empty trail. |
| `Players.AddPlayersFromEmpty` | src/App.js:130-143 | n additions to an empty registry give ids 1..n, the letters in order, the staggered positions and empty trails. |
| `Players.DefaultNamesDistinct` | src/App.js:135 | The first 26 default names are pairwise different. |
| `Players.AddPlayersDistinct` | src/App.js:132-135 | Up to 26 additions to an empty registry give pairwise distinct ids and pairwise distinct names. |
| `Players.RemovePlayer` | src/App.js:145 | No remaining entry has the removed id, and the list does not grow. |
| `Players.RemovePlayerAbsent` | src/App.js:145 | Removal is a no-op exactly when no entry carries the id. |
| `Players.RemovePlayerShrinks` | src/App.js:145 | Removing an id that some entry carries makes the list shorter. |
| `Players.RemovePlayerAppend` | src/App.js:145 | Removal keeps order: it distributes over concatenation. |
| `Players.DistinctIdsAround` | src/App.js:145 | With distinct ids, no entry before or after index k carries the id of entry k. |
| `Players.RemoveOnlyMatch` | src/App.js:145 | When only the middle entry carries an id, removing that id leaves the entries before and after it, in order. |
| `Players.RemovePlayerAt` | src/App.js:145 | With distinct ids, removing the id at index k leaves exactly the entries before and after k, in order. |
| `Players.ApplyPatch` | src/App.js:146 | A patch sets the name and colour it carries, keeps the others, and changes no other field. |
| `Players.UpdatePlayer` | src/App.js:146 | Length is kept. Only entries with the id are patched; every other entry is unchanged. |
| `Players.UpdatePlayerKeepsIds` | src/App.js:146 | An update for an absent id is a no-op, and updates keep ids distinct. |
| `Players.ClearPlayerPaths` | src/App.js:147 | Length is kept. Every trail becomes empty, and every other field of every entry is unchanged. |
| `Players.DragMove` | src/App.js:198-207 | Outside play mode the list is unchanged. In play mode the matching player takes the relative position of the dragged marker's stage position, that one point is appended to its trail, and the other entries are unchanged. |
| `Players.MoveTo` | src/App.js:202-206 | The matching entries take the given position with it appended to their trails; the others are unchanged. |
| `Players.RenderAgreesWithMapper` | src/App.js:234-235 | The renderer's per-player x and y equal the mapper's stage position. |
| `Players.DragMoveRendersAtMarker` | src/App.js:198-207 | After a drag in play mode the player is drawn exactly at the dragged marker's stage position, and its trail is one longer. |
| `Players.PositionUpdatesKeepIds` | src/App.js:147 | Clearing trails and dragging keep ids distinct; a drag for an absent id is a no-op. |
| `Players.AddThenDragScenario` | src/App.js:130-207 | The first player is (1, "A", 0.2, 0.2, hue 73, no trail). A play-mode drag to the court centre gives (0.5, 0.5) with trail [(0.5, 0.5)]. A draw-mode drag then changes nothing. |
| `Persistence.LoadPlayers` | src/App.js:78-85 | A missing or empty stored entry, or one that fails to parse, gives an empty list; otherwise the parsed list. |
| `Strokes.SetMode` | src/App.js:242-243 | Switching mode changes only the mode. |
| `Strokes.Down` | src/App.js:150-161 | Outside draw mode nothing changes. In draw mode one line [x, y] ("#000", width 3) is appended, the current index is its index and a stroke is open. |
| `Strokes.Move` | src/App.js:163-179 | A point is appended to the current line iff a stroke is open, the mode is draw, >= 8 ms have passed, the pointer is known and the index is valid. The fault case is characterised too. lastDraw becomes now iff the time gate passes. No other line or field changes. |
| `Strokes.Up` | src/App.js:181-186 | In draw mode the stroke closes and the index becomes -1; in any other mode nothing changes. |
| `Strokes.Undo` | src/App.js:188-191 | Exactly the last line is dropped (an empty list stays empty); the prefix and every other field are kept. |
| `Strokes.ClearAll` | src/App.js:192-195 | No lines remain; every other field is kept. |
| `Strokes.EventsKeepWellFormed` | src/App.js:150-195 | Every event keeps each line's points an even number >= 2, in black at width 3, and the index >= -1. |
| `Strokes.TotalCoordsUpdate` | src/App.js:176 | Replacing one line changes the coordinate total by the difference in its length. |
| `Strokes.MoveCoords` | src/App.js:163-179 | A pointer-move adds exactly two coordinates when it appends and none otherwise. |
| `Strokes.ThrottleTwoMoves` | src/App.js:164-167 | Two moves whose second clock reading is less than 8 ms after the first (also when the clock steps back) do not both append, and add at most one point in total. |
| `Strokes.UndoAfterDown` | src/App.js:155-191 | An undo after a draw-mode pointer-down restores the lines. |
| `Strokes.UndoOrClearMidStrokeFaults` | src/App.js:172-195 | An undo or clear after a pointer-down leaves the stroke open with the index past the end, so the next accepted move faults. |
| `Strokes.PlayModeUpLeavesStrokeOpen` | src/App.js:181-186 | A pointer-up in play mode leaves the stroke open; back in draw mode the next move extends the same line. |
| `Strokes.DrawExtendUndoScenario` | src/App.js:150-191 | Down at (10,10), a move to (20,20) after the interval, up and undo: the line was [10,10,20,20], and the lines are as before. |
| `Board.Board.constructor` | src/App.js:87-92 | The board starts with no lines, index -1, not drawing, lastDraw 0, in play mode. |
| `Board.Board.SetMode` | src/App.js:242-243 | The new state is `Strokes.SetMode` of the old one. |
| `Board.Board.PointerDown` | src/App.js:150-161 | The new state is `Strokes.Down` of the old one, and the state stays well formed. |
| `Board.Board.PointerMove` | src/App.js:163-179 | The new state and the outcome are `Strokes.Move` of the old state, and the state stays well formed. |
| `Board.Board.PointerUp` | src/App.js:181-186 | The new state is `Strokes.Up` of the old one. |
| `Board.Board.UndoDraw` | src/App.js:188-191 | The new state is `Strokes.Undo` of the old one. |
| `Board.Board.Clear` | src/App.js:192-195 | The new state is `Strokes.ClearAll` of the old one. |
| `Board.UndoMidStrokeThenMove` | src/App.js:172-176 | On a fresh board: draw mode, down, undo, then a move faults, with no lines left. |
| `Board.DrawThenUndo` | src/App.js:150-191 | On a fresh board: draw mode, down, a move after the interval appends, then up and undo leave no lines. |

## Left out

- Image loading (src/App.js:16-36): the image is an optional intrinsic size.
- Window resize and fullscreen events (src/App.js:42-67, 217-231): the container size is a parameter; only the stage-size rule is modelled.
- Saving players (src/App.js:209-214) is a storage write with errors swallowed, so it is not modelled. JSON parsing is an input outcome, and a parse that yields something other than a list is not modelled.
- Rendering (src/App.js:237-363): markup, styling and Konva options. Of this, only the trail flattening and the per-player position formulas are modelled.
- Floating point: the model uses exact reals, so the aspect-ratio and round-trip equalities are idealisations of IEEE-754 doubles.
- Geometry.CourtRect: requires a non-zero image width and height and a non-zero container height once the image is loaded. The source divides by these, and JavaScript then computes with infinite or NaN intermediates. Some of these cases still end in a finite rectangle: a zero container height with a positive width gives {W/2, 0, 0, 0}, and a zero image width gives {W/2, 0, 0, H}. The model has no IEEE-754 infinities, so it does not cover these cases.
- Geometry.AbsToRel: requires a rectangle with non-zero width and height. The source divides without a guard, so a drag before the image loads would store NaN or Infinity.
- Players.DragMove: requires, in play mode only, the same non-degenerate rectangle, for the same reason.
- Board.Board.PointerDown: takes a present pointer position. The source would throw on a missing one at src/App.js:158.
- Board.Board.PointerMove: the source's thrown TypeError is modelled as the `Faulted` outcome, not as an exception.
- Line objects: these are values in a sequence. The source reassigns `points` on a shared line object, and undo's slice shares those objects; no other holder observes this, so aliasing is not modelled.
- React scheduling: state batching and `setRenderTick` re-render nudges are not modelled. Each updater is a synchronous old-to-new function.
- Colour formatting: the `hsl(...)` string is not modelled. A player's colour is its integer hue, or any colour a patch supplies.
- Modes: the source compares mode strings. The only values it ever sets are "play" and "draw", which become an enumeration.
