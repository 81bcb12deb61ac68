# Pixel-art editor: frames reducer and animation CSS generator

This project models two pure layers of a browser pixel-art editor in Dafny and
proves properties of them.

- **The frames reducer** (`src/store/reducers/framesReducer.js`). Its state is
  an ordered list of frames, each a grid of cells with an interval (the
  percentage of the animation at which the frame ends) and a key. The state
  also holds the canvas `columns`, `rows` and the `activeIndex` of the frame
  being edited. One pure function handles each action type, and a dispatcher
  selects among them. The functions cover:
  - initialising;
  - loading a drawing;
  - pencil, eraser and bucket on the active frame;
  - resetting the active grid;
  - choosing the active frame;
  - adding, deleting and duplicating frames;
  - resizing the canvas;
  - overriding one frame's interval.

  `resetIntervals` respaces the intervals evenly. Frame k of n ends at
  (k+1)·100/n, rounded half-up to one decimal. The last frame ends at exactly 100.
- **The animation code generator** (`src/utils/helpers.js`):
  - `generatePixelDrawCss` turns a frame's used cells into box-shadow entries
    (`'array'`) or one box-shadow string. Both use the pixel offsets
    x = (i mod columns)·cellSize + cellSize and
    y = ⌊i / columns⌋·cellSize + cellSize.
  - `generateAnimationIntervals` builds the equal-step percentages 0 … 100.
  - `generateAnimationCSSData` builds the keyframe object. Its keys are
    `{min}%, {max}%` and its values are box shadows.
  - `exportAnimationData` writes the final `.pixel-animation` rule and the
    `@keyframes` text.

Modules:

| file | module | models |
|---|---|---|
| `pixel_grid.dfy` | `PixelGrid` | cells, grids, and the imported grid primitives as the opaque record `GridOps` |
| `intervals.dfy` | `Intervals` | `Math.round(x*10)/10` and the even interval of frame k of n |
| `frame_state.dfy` | `FrameState` | `Frame`, the reducer state `Frames`, and the invariants `Valid` and `EvenlySpaced` |
| `action_types.dfy` | `ActionTypes` | the action type constants the reducer switches on, with their payloads |
| `frames_reducer.dfy` | `FramesReducer` | every reducer helper and the dispatcher `Reduce` |
| `frames_reducer_lemmas.dfy` | `FramesReducerLemmas` | laws relating reducer operations |
| `decimal.dfy` | `Decimal` | the decimal text of a natural number, and its parse |
| `helpers.dfy` | `Helpers` | the four generator functions |
| `helpers_lemmas.dfy` | `HelpersLemmas` | laws relating the generator functions |

The grid primitives `create`, `resize`, `applyBucket` and `drawPixel` come from
`./pixelGrid`. That file is not part of this model. The primitives are fields of
a `GridOps` value passed into each reducer operation, so nothing proved here
depends on how they work.

Behaviour the model follows as the code has it:
- `resetGrid` builds the new frame with `create`, so the active frame gets a
  new key.
- `duplicateFrame` splices the copy in at `frameId`, so the copy (with the new
  key) comes first and the original moves to `frameId + 1`, which becomes
  active.
- The string branch starts with a space: one used cell of colour `ff0000` on a
  1×1 grid with cell size 10 gives `" 10px 10px 0 #ff0000"`.
- `changeDimensions` applies no lower bound.
- `changeActiveFrame` does not check the index.
- `setFrames` does not respace the intervals.
- After `deleteFrame` the active index jumps to the new last frame whenever it
  was positive and at or after the removed frame. It does not follow the frame
  it pointed at.

## Model

| member | source | states |
|---|---|---|
| `Decimal.NatToString` | src/utils/helpers.js:11-12 | the interpolated coordinate text is a non-empty digit string without a leading zero |
| `Decimal.DigitsValueOfNatToString` | src/utils/helpers.js:11-12 | reading the digits of a rendered coordinate back gives the coordinate (round trip) |
| `Intervals.RoundTenth` | src/store/reducers/framesReducer.js:22 | `Math.round(x*10)/10` lies in (x−0.05, x+0.05] and is a whole number of tenths |
| `Intervals.RoundTenthUnique` | src/store/reducers/framesReducer.js:22 | only one value satisfies that, so the rounding is fully characterised |
| `Intervals.EvenIntervalMonotone` | src/store/reducers/framesReducer.js:17-25 | the interval assigned to position j is between 0 and the interval at any later position k, which is at most 100 |
| `FramesReducer.ResetIntervals` | src/store/reducers/framesReducer.js:17-25 | keeps the length and each frame's grid and key, and leaves the list evenly spaced |
| `FramesReducerLemmas.EvenlySpacedShape` | src/store/reducers/framesReducer.js:17-25 | in an evenly spaced list the last interval is 100, intervals never decrease and stay in 0..100, and interval k < n−1 is (k+1)·100/n rounded half-up to one decimal |
| `FramesReducerLemmas.ResetIntervalsFixpoint` | src/store/reducers/framesReducer.js:17-25 | respacing leaves a list unchanged exactly when it is already evenly spaced |
| `FramesReducerLemmas.ResetIntervalsIdempotent` | src/store/reducers/framesReducer.js:17-25 | respacing twice equals respacing once |
| `FramesReducerLemmas.ResetIntervalsFourFrames` | src/store/reducers/framesReducer.js:17-25 | four frames end at 25, 50, 75, 100 |
| `FramesReducerLemmas.ResetIntervalsThreeFrames` | src/store/reducers/framesReducer.js:17-25 | three frames end at 33.3, 66.7, 100 |
| `FramesReducer.DimensionOption` | src/store/reducers/framesReducer.js:29-30 | a missing, unparsable or zero option gives 20; any other parsed value, negative included, is kept; the result is never 0 |
| `FramesReducer.InitFrames` | src/store/reducers/framesReducer.js:27-38 | one frame built from `create(columns*rows)` with interval 100 and the fresh key; active index 0; the state is valid |
| `FramesReducer.SetFrames` | src/store/reducers/framesReducer.js:143-154 | the loaded list and dimensions are taken as given with active index 0; the result is valid exactly when the list is non-empty |
| `FramesReducer.ResetGrid` | src/store/reducers/framesReducer.js:40-46 | only the active frame changes: its grid becomes `create` applied to the old cell count, it keeps its interval and takes the new key; dimensions and active index unchanged |
| `FramesReducer.ChangeActiveFrame` | src/store/reducers/framesReducer.js:48-51 | only the active index changes; the state stays valid exactly when the index is in range |
| `FramesReducer.CreateNewFrame` | src/store/reducers/framesReducer.js:53-63 | the list grows by one; old frames keep grid and key; the appended frame is `create` of frame 0's cell count with the fresh key and ends at 100; active index is the old size (the new last index); intervals respaced |
| `FramesReducer.DeleteFrame` | src/store/reducers/framesReducer.js:65-76 | with at most one frame the state is returned unchanged; otherwise frame `frameId` is removed (others keep grid and key, in order), intervals respaced, active index becomes newSize−1 when activeIndex ≥ frameId and activeIndex > 0 and is unchanged otherwise; a valid state stays valid |
| `FramesReducer.DuplicateFrame` | src/store/reducers/framesReducer.js:78-94 | the list grows by one; positions `frameId` and `frameId+1` both hold the duplicated grid, the copy carrying the fresh key and the original its old key; others keep grid and key; active index `frameId+1` is in range; intervals respaced |
| `FramesReducer.ChangeDimensions` | src/store/reducers/framesReducer.js:96-116 | every frame keeps interval and key and gets `resize(grid, prop, increment, oldDims)`; only the named dimension moves by `increment`; active index unchanged |
| `FramesReducer.ChangeFrameInterval` | src/store/reducers/framesReducer.js:118-119 | only that frame's interval changes; its grid and key and every other frame, the dimensions and active index stay |
| `FramesReducer.DrawPixel` | src/store/reducers/framesReducer.js:121-124 | only the active grid changes, to `drawPixel(grid, color, id)` |
| `FramesReducer.ApplyPencil` | src/store/reducers/framesReducer.js:126 | only the active grid changes, drawn with the palette colour |
| `FramesReducer.ApplyEraser` | src/store/reducers/framesReducer.js:128 | only the active grid changes, drawn with the empty colour `""` |
| `FramesReducer.ApplyBucket` | src/store/reducers/framesReducer.js:130-141 | only the active grid changes, to `applyBucket` given the id, colour and current dimensions |
| `FramesReducer.Reduce` | src/store/reducers/framesReducer.js:156-186 | an unknown action returns the state unchanged; from a valid state the result is valid exactly when the action's payload allows it (active index in range, loaded list non-empty) |
| `FramesReducerLemmas.DeleteUndoesCreate` | src/store/reducers/framesReducer.js:53-76 | deleting the frame just added restores an evenly spaced list, with the last frame active |
| `FramesReducerLemmas.DeleteUndoesDuplicate` | src/store/reducers/framesReducer.js:65-94 | deleting the inserted copy restores an evenly spaced list; the active index jumps to the last frame |
| `FramesReducerLemmas.DeleteFrameActiveJumpsToLast` | src/store/reducers/framesReducer.js:71-75 | five frames, frame 1 active, delete frame 0: old frame 4 becomes active |
| `FramesReducerLemmas.ChangeDimensionsInverse` | src/store/reducers/framesReducer.js:96-116 | +increment then −increment restores both dimensions and every interval and key |
| `FramesReducerLemmas.ChangeDimensionsHasNoFloor` | src/store/reducers/framesReducer.js:112-115 | columns can be driven to 0 and below |
| `FramesReducerLemmas.ChangeFrameIntervalInverse` | src/store/reducers/framesReducer.js:118-119 | writing the old interval back restores the state |
| `Helpers.CellAtInvertsCoords` | src/utils/helpers.js:7-8 | with a positive cell size the cell index is recovered from its (x, y) offsets, so distinct cells never share a shadow position |
| `Helpers.UsedIndices` | src/utils/helpers.js:5-19 | the used cells below n, strictly increasing, each used, and every used cell listed |
| `Helpers.ArrayUpTo` | src/utils/helpers.js:5-19 | after n cells the accumulator holds one 4-field entry per used cell, in index order |
| `Helpers.PixelDrawArray` | src/utils/helpers.js:3-21 | exactly one `[x, y, '0', '#color']` entry per used cell in index order; empty exactly when no cell is used |
| `Helpers.JoinShadows` | src/utils/helpers.js:29 | rendered entries are empty only for no entries, and otherwise start with a space and end with a comma |
| `Helpers.ShadowPieceIsText` | src/utils/helpers.js:11-14 | the string piece of a cell is its array entry rendered as ` {x}px {y}px 0 #{color},` |
| `Helpers.StringUpTo` | src/utils/helpers.js:24-33 | the string accumulator after n cells is the array accumulator's entries rendered in order |
| `Helpers.PixelDrawString` | src/utils/helpers.js:22-35 | the array branch rendered with the last comma removed; empty exactly when no cell is used; otherwise begins with a space |
| `Helpers.GeneratePixelDrawCss` | src/utils/helpers.js:1-37 | `'array'` selects the entry list and any other type the string, with the contents above |
| `Helpers.GenerateAnimationIntervals` | src/utils/helpers.js:112-122 | n+1 values, last 100, first 0 when n > 0, consecutive values differ by 100/n |
| `Helpers.Put` | src/utils/helpers.js:94 | assigning a new key appends it; keys stay unique; the result grows by at most one |
| `Helpers.PutOverwrites` | src/utils/helpers.js:94 | assigning an existing key replaces its value in place |
| `Helpers.NextKeyIsNew` | src/utils/helpers.js:91-94 | with strictly increasing intervals, the key of frame n−1 differs from the key of every earlier frame, so the assignment adds a property instead of overwriting one |
| `Helpers.KeyframesUpTo` | src/utils/helpers.js:89-100 | the object after n frames has at most n entries with unique keys |
| `Helpers.KeyframesOnePerFrame` | src/utils/helpers.js:88-103 | with strictly increasing intervals the object built by the repeated assignments equals the list of every frame's keyframe in frame order: no assignment overwrote another |
| `Helpers.GenerateAnimationCssData` | src/utils/helpers.js:88-103 | unique keys; with strictly increasing intervals one entry per frame: min 0 or intervals[k]+0.01, max intervals[k+1], value the string CSS followed by `;height: {cellSize}px; width: {cellSize}px;` |
| `Helpers.ExportAnimationData` | src/utils/helpers.js:55-73 | the text is the `.pixel-animation { position: absolute;` rule with the four animation declarations carrying the duration, then `@keyframes x {`, the rules `key{ box-shadow: value}` in insertion order, then `}` |
| `HelpersLemmas.ArrayEntryDecodes` | src/utils/helpers.js:5-16 | an entry's numbers decode to the cell's index, its third field is `"0"` and its fourth is `#` followed by the colour |
| `HelpersLemmas.SingleCellCss` | src/utils/helpers.js:22-35 | one used cell `ff0000`, one column, cell size 10 gives `" 10px 10px 0 #ff0000"` |
| `HelpersLemmas.FourFrameIntervals` | src/utils/helpers.js:112-122 | four frames give `[0, 25, 50, 75, 100]` |
| `HelpersLemmas.IntervalsStrictlyIncrease` | src/utils/helpers.js:112-122 | with at least one frame the intervals strictly increase |
| `HelpersLemmas.AnimationKeyframesOnePerFrame` | src/utils/helpers.js:88-122 | built from its own intervals the keyframe data is in the strictly increasing case: one entry per frame, entry k spans from 0 (k = 0) or intervals[k]+0.01 up to intervals[k+1] with frame k's box shadow, the first starts at 0 and the last ends at 100 |
| `HelpersLemmas.RulesSplit` | src/utils/helpers.js:66-69 | the rules appended for keyframes lo..hi−1 are those for lo..mid−1 followed by those for mid..hi−1, for any split point |
| `HelpersLemmas.ExportedRuleAt` | src/utils/helpers.js:55-73 | keyframe i's rule appears in the export right after the base rule, the opener and the rules of keyframes 0..i−1 |

## Left out

- Internals of `./pixelGrid` (`create`, `resize`, `applyBucket`, `drawPixel`): that file is not part of this model. Its primitives are opaque functions in `GridOps`, and no property depends on them.
- Keys from `shortid.generate()` are random. The one fresh key an action may need is a parameter (`key`).
- `parseInt` on option text: the model starts from the parsed value (`Parsed.NaN` or a number). Missing `options` count as two `NaN`s.
- Floating point: intervals and keyframe bounds are exact reals. `Math.round` is floor(v + 0.5). Double rounding can differ from this at an exact half tenth, and `k·(100/n)` can drift in its last bit.
- JavaScript number-to-string conversion: keyframe keys are kept as (min, max) pairs. The export renders numbers with an opaque `show` function. Only the natural numbers in the box-shadow text (coordinates, cell size) are written out in decimal.
- `shareDrawing` (src/utils/helpers.js:124-193): it ends in AJAX requests and browser navigation.
- src/components/App.jsx, src/components/LoadDrawing.jsx, src/components/Pixel-grid.jsx, src/components/RadioSelector.jsx: React rendering, modal dialogs and `localStorage` access.
- Undo/redo history and the palette live outside the files modelled here. They are not modelled.
- Immutable.js details: `Map`, `List` and `fromJS` are Dafny datatypes and sequences. Negative indices (which count from the end in Immutable.js) are outside the `nat` index types.
- `FramesReducer.DeleteFrame`: an out-of-range `frameId` with more than one frame is excluded by the precondition. Immutable's `splice` would then remove nothing.
- `FramesReducer.DuplicateFrame`: an out-of-range `frameId` is excluded by the precondition. The source would call `.get` on `undefined`.
- `FramesReducer.ChangeFrameInterval`: an out-of-range index is excluded by the precondition. `setIn` would create a new entry.
- `Helpers.GeneratePixelDrawCss`: requires `columns > 0` and a natural cell size. With zero columns the source's coordinates are `NaN`. Columns can be zero or negative in the reducer, because `changeDimensions` has no floor. With negative columns the source's x offsets stay positive (`i % -c` takes the sign of `i`), but `parseInt(i / -c)` is at most 0, so y offsets of later rows go to zero and below. The `nat` offsets here cannot express that.
- `Helpers.YCoord`: the row `parseInt(i / columns, 10)` is modelled as floor division. That matches the source only while the quotient prints in plain decimal. Below 10^-6 (a cell index that is a tiny fraction of the column count, so only with 10^6 or more columns) it prints as, say, `5e-7` and `parseInt` reads 5. The model assumes 1 ≤ columns < 10^6.
- Offsets and cell sizes are unbounded naturals here. JavaScript numbers are exact only below 2^53, and `${n}` switches to exponent form from 10^21. The model assumes every offset stays below 2^53.
- `FramesReducer.ResetGrid`: requires the active index to be in range. The model's own `ChangeActiveFrame` and an empty `SetFrames` list can break this. The source then passes `undefined` to the updater at framesReducer.js:42-45 and throws on `frame.get`.
- `FramesReducer.CreateNewFrame`: requires a non-empty list. On an empty list the source throws, reading `.size` of the missing frame 0 grid at framesReducer.js:56.
- `FramesReducer.DrawPixel`: requires the active index to be in range. Otherwise the source's `updateIn` at framesReducer.js:121-124 hands `undefined` to the `drawPixel` primitive instead of a grid.
- `FramesReducer.ApplyPencil`: same precondition as `DrawPixel`, and for the same reason (framesReducer.js:126).
- `FramesReducer.ApplyEraser`: same precondition as `DrawPixel`, and for the same reason (framesReducer.js:128).
- `FramesReducer.ApplyBucket`: requires the active index to be in range. Otherwise the source passes an `undefined` active grid to the `applyBucket` primitive at framesReducer.js:135-136.
- `Helpers.GenerateAnimationCssData`: requires one more interval than frames. The source would otherwise read `undefined`. When the intervals are not strictly increasing, the contract only bounds the entry count and keeps keys unique; it does not list the entries.
