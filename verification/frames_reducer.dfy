/** The frames reducer: one pure function per action it handles, and the
    dispatcher that picks among them. Grid primitives arrive as `ops`; the
    fresh key an action may need arrives as `key`. */
module FramesReducer {
  import opened PixelGrid
  import opened Intervals
  import opened FrameState
  import ActionTypes

  /** `resetIntervals`: keep every frame's grid and key, and respace the
      intervals evenly over the list. */
  function ResetIntervals(list: seq<Frame>): (r: seq<Frame>)
    ensures |r| == |list|
    ensures forall k :: 0 <= k < |r| ==> SameFrame(r[k], list[k])
    ensures EvenlySpaced(r)
  {
    seq(|list|, k requires 0 <= k < |list| => Frame(list[k].grid, EvenInterval(k, |list|), list[k].key))
  }

  /** `parseInt(option, 10) || 20`: a missing, unparsable or zero option
      falls back to 20; any other parsed value, negative ones included, is
      kept. */
  function DimensionOption(parsed: ActionTypes.Parsed): (d: int)
    ensures d != 0
    ensures parsed.Number? && parsed.value != 0 ==> d == parsed.value
    ensures parsed.NaN? || parsed.value == 0 ==> d == 20
  {
    if parsed.Number? && parsed.value != 0 then parsed.value else 20
  }

  /** `initFrames`: a single blank frame of columns·rows cells, which ends
      the timeline at 100, and active index 0. */
  function InitFrames(ops: GridOps, options: ActionTypes.Options, key: Key): (r: Frames)
    ensures Valid(r) && |r.list| == 1 && r.activeIndex == 0
    ensures r.columns == DimensionOption(options.columns)
    ensures r.rows == DimensionOption(options.rows)
    ensures r.list[0] == Frame(ops.create(r.columns * r.rows), 100.0, key)
  {
    var columns := DimensionOption(options.columns);
    var rows := DimensionOption(options.rows);
    // the source creates the frame without an interval; resetIntervals sets it
    Frames(ResetIntervals([Frame(ops.create(columns * rows), 0.0, key)]), columns, rows, 0)
  }

  /** `setFrames`: load a saved drawing as given, with active index 0. The
      list is not checked and its intervals are not respaced. */
  function SetFrames(frames: seq<Frame>, columns: int, rows: int): (r: Frames)
    ensures r.list == frames && r.columns == columns && r.rows == rows
    ensures r.activeIndex == 0
    ensures Valid(r) <==> |frames| > 0
  {
    Frames(frames, columns, rows, 0)
  }

  /** `resetGrid`: the active frame becomes a blank grid of the same number
      of cells, keeps its interval and gets a new key. */
  function ResetGrid(ops: GridOps, s: Frames, key: Key): (r: Frames)
    requires s.activeIndex < |s.list|
    ensures |r.list| == |s.list|
    ensures r.columns == s.columns && r.rows == s.rows && r.activeIndex == s.activeIndex
    ensures r.list[s.activeIndex]
         == Frame(ops.create(|s.list[s.activeIndex].grid|), s.list[s.activeIndex].interval, key)
    ensures forall k :: 0 <= k < |s.list| && k != s.activeIndex ==> r.list[k] == s.list[k]
  {
    var frame := s.list[s.activeIndex];
    s.(list := s.list[s.activeIndex := Frame(ops.create(|frame.grid|), frame.interval, key)])
  }

  /** `changeActiveFrame`: the index is taken as given, in range or not. */
  function ChangeActiveFrame(s: Frames, frameIndex: nat): (r: Frames)
    ensures r.list == s.list && r.columns == s.columns && r.rows == s.rows
    ensures r.activeIndex == frameIndex
    ensures 0 < |s.list| ==> (Valid(r) <==> frameIndex < |s.list|)
  {
    s.(activeIndex := frameIndex)
  }

  /** `createNewFrame`: append a blank frame sized like frame 0, respace the
      intervals and make the new frame active. */
  function CreateNewFrame(ops: GridOps, s: Frames, key: Key): (r: Frames)
    requires 0 < |s.list|
    ensures |r.list| == |s.list| + 1
    ensures r.activeIndex == |s.list| && Valid(r)
    ensures r.columns == s.columns && r.rows == s.rows
    ensures forall k :: 0 <= k < |s.list| ==> SameFrame(r.list[k], s.list[k])
    ensures r.list[|s.list|] == Frame(ops.create(|s.list[0].grid|), 100.0, key)
    ensures EvenlySpaced(r.list)
  {
    var list := ResetIntervals(s.list + [Frame(ops.create(|s.list[0].grid|), 100.0, key)]);
    s.(list := list, activeIndex := |s.list|)
  }

  /** `deleteFrame`: a list of at most one frame is left alone. Otherwise
      frame `frameId` is removed, the intervals are respaced, and the active
      index jumps to the new last frame when it was positive and at or after
      the removed one. */
  function DeleteFrame(s: Frames, frameId: nat): (r: Frames)
    requires |s.list| <= 1 || frameId < |s.list|
    ensures |s.list| <= 1 ==> r == s
    ensures |s.list| > 1 ==> |r.list| == |s.list| - 1 && EvenlySpaced(r.list)
    ensures |s.list| > 1 ==> forall k :: 0 <= k < frameId ==> SameFrame(r.list[k], s.list[k])
    ensures |s.list| > 1 ==> forall k :: frameId <= k < |r.list| ==> SameFrame(r.list[k], s.list[k + 1])
    ensures |s.list| > 1 && s.activeIndex >= frameId && s.activeIndex > 0 ==>
              r.activeIndex == |r.list| - 1
    ensures |s.list| > 1 && !(s.activeIndex >= frameId && s.activeIndex > 0) ==>
              r.activeIndex == s.activeIndex
    ensures r.columns == s.columns && r.rows == s.rows
    ensures Valid(s) ==> Valid(r)
  {
    if |s.list| <= 1 then s
    else
      var reduceFrameIndex := s.activeIndex >= frameId && s.activeIndex > 0;
      var list := ResetIntervals(s.list[..frameId] + s.list[frameId + 1..]);
      s.(list := list, activeIndex := if reduceFrameIndex then |s.list| - 2 else s.activeIndex)
  }

  /** `duplicateFrame`: a copy of frame `frameId`, with a new key, is
      spliced in at position `frameId`, so the original moves one place on;
      the intervals are respaced and the original becomes active. */
  function DuplicateFrame(s: Frames, frameId: nat, key: Key): (r: Frames)
    requires frameId < |s.list|
    ensures |r.list| == |s.list| + 1
    ensures r.activeIndex == frameId + 1 && Valid(r)
    ensures r.columns == s.columns && r.rows == s.rows
    ensures r.list[frameId].grid == s.list[frameId].grid && r.list[frameId].key == key
    ensures forall k :: 0 <= k < frameId ==> SameFrame(r.list[k], s.list[k])
    ensures forall k :: frameId <= k < |s.list| ==> SameFrame(r.list[k + 1], s.list[k])
    ensures EvenlySpaced(r.list)
  {
    var frame := s.list[frameId];
    var copy := Frame(frame.grid, frame.interval, key);
    var list := ResetIntervals(s.list[..frameId] + [copy] + s.list[frameId..]);
    s.(list := list, activeIndex := frameId + 1)
  }

  /** `changeDimensions`: every frame's grid is resized against the
      dimensions before the change, and only the named dimension moves by
      `increment`. No lower bound is applied. */
  function ChangeDimensions(ops: GridOps, s: Frames, gridProperty: Axis, increment: int): (r: Frames)
    ensures |r.list| == |s.list| && r.activeIndex == s.activeIndex
    ensures forall k :: 0 <= k < |s.list| ==>
              r.list[k].interval == s.list[k].interval && r.list[k].key == s.list[k].key
    ensures forall k :: 0 <= k < |s.list| ==>
              r.list[k].grid == ops.resize(s.list[k].grid, gridProperty, increment, Dims(s.columns, s.rows))
    ensures gridProperty == Columns ==> r.columns == s.columns + increment && r.rows == s.rows
    ensures gridProperty == Rows ==> r.rows == s.rows + increment && r.columns == s.columns
  {
    var dimensions := Dims(s.columns, s.rows);
    var list := seq(|s.list|, k requires 0 <= k < |s.list| =>
      Frame(ops.resize(s.list[k].grid, gridProperty, increment, dimensions), s.list[k].interval, s.list[k].key));
    match gridProperty
    case Columns => s.(list := list, columns := s.columns + increment)
    case Rows => s.(list := list, rows := s.rows + increment)
  }

  /** `changeFrameInterval`: overwrite one frame's interval, without
      respacing the others. */
  function ChangeFrameInterval(s: Frames, frameIndex: nat, interval: real): (r: Frames)
    requires frameIndex < |s.list|
    ensures |r.list| == |s.list|
    ensures r.columns == s.columns && r.rows == s.rows && r.activeIndex == s.activeIndex
    ensures r.list[frameIndex].interval == interval && SameFrame(r.list[frameIndex], s.list[frameIndex])
    ensures forall k :: 0 <= k < |s.list| && k != frameIndex ==> r.list[k] == s.list[k]
  {
    s.(list := s.list[frameIndex := s.list[frameIndex].(interval := interval)])
  }

  /** `drawPixel`: apply the grid primitive to the active frame's grid. */
  function DrawPixel(ops: GridOps, s: Frames, color: string, id: nat): (r: Frames)
    requires s.activeIndex < |s.list|
    ensures OnlyActiveGridChanges(s, r)
    ensures r.list[s.activeIndex].grid == ops.drawPixel(s.list[s.activeIndex].grid, color, id)
  {
    var frame := s.list[s.activeIndex];
    s.(list := s.list[s.activeIndex := frame.(grid := ops.drawPixel(frame.grid, color, id))])
  }

  /** `applyPencil`: draw the palette colour on the active frame. */
  function ApplyPencil(ops: GridOps, s: Frames, paletteColor: string, id: nat): (r: Frames)
    requires s.activeIndex < |s.list|
    ensures OnlyActiveGridChanges(s, r)
    ensures r.list[s.activeIndex].grid == ops.drawPixel(s.list[s.activeIndex].grid, paletteColor, id)
  {
    DrawPixel(ops, s, paletteColor, id)
  }

  /** `applyEraser`: draw the empty colour on the active frame. */
  function ApplyEraser(ops: GridOps, s: Frames, id: nat): (r: Frames)
    requires s.activeIndex < |s.list|
    ensures OnlyActiveGridChanges(s, r)
    ensures r.list[s.activeIndex].grid == ops.drawPixel(s.list[s.activeIndex].grid, "", id)
  {
    DrawPixel(ops, s, "", id)
  }

  /** `applyBucket`: flood-fill the active frame's grid, telling the grid
      primitive the current dimensions. */
  function ApplyBucket(ops: GridOps, s: Frames, id: nat, paletteColor: string): (r: Frames)
    requires s.activeIndex < |s.list|
    ensures OnlyActiveGridChanges(s, r)
    ensures r.list[s.activeIndex].grid
         == ops.applyBucket(s.list[s.activeIndex].grid, BucketRequest(id, paletteColor, s.columns, s.rows))
  {
    var frame := s.list[s.activeIndex];
    var grid := ops.applyBucket(frame.grid, BucketRequest(id, paletteColor, s.columns, s.rows));
    s.(list := s.list[s.activeIndex := frame.(grid := grid)])
  }

  /** What each action needs of the state before it can be applied: the
      indices it reads must name existing frames. */
  predicate Admissible(s: Frames, action: ActionTypes.Action) {
    match action
    case ApplyPencil(_, _) => s.activeIndex < |s.list|
    case ApplyEraser(_) => s.activeIndex < |s.list|
    case ApplyBucket(_, _) => s.activeIndex < |s.list|
    case SetResetGrid() => s.activeIndex < |s.list|
    case CreateNewFrame() => 0 < |s.list|
    case DeleteFrame(frameId) => |s.list| <= 1 || frameId < |s.list|
    case DuplicateFrame(frameId) => frameId < |s.list|
    case ChangeFrameInterval(frameIndex, _) => frameIndex < |s.list|
    case _ => true
  }

  /** The two actions whose payload can break `Valid`: an active index out
      of range, and loading an empty list. */
  predicate KeepsValid(s: Frames, action: ActionTypes.Action) {
    match action
    case ChangeActiveFrame(frameIndex) => frameIndex < |s.list|
    case SetDrawing(frames, _, _) => 0 < |frames|
    case _ => true
  }

  /** The reducer: dispatch on the action's type; any other action leaves
      the state as it is. A valid state stays valid exactly when the
      action's payload keeps it so. */
  function Reduce(ops: GridOps, s: Frames, action: ActionTypes.Action, key: Key): (r: Frames)
    requires Admissible(s, action)
    ensures action.OtherAction? ==> r == s
    ensures Valid(s) ==> (Valid(r) <==> KeepsValid(s, action))
  {
    match action
    case SetInitialState(options) => InitFrames(ops, options, key)
    case NewProject(options) => InitFrames(ops, options, key)
    case SetDrawing(frames, columns, rows) => SetFrames(frames, columns, rows)
    case ApplyPencil(paletteColor, id) => ApplyPencil(ops, s, paletteColor, id)
    case ApplyEraser(id) => ApplyEraser(ops, s, id)
    case ApplyBucket(id, paletteColor) => ApplyBucket(ops, s, id, paletteColor)
    case SetResetGrid() => ResetGrid(ops, s, key)
    case ChangeActiveFrame(frameIndex) => ChangeActiveFrame(s, frameIndex)
    case CreateNewFrame() => CreateNewFrame(ops, s, key)
    case DeleteFrame(frameId) => DeleteFrame(s, frameId)
    case DuplicateFrame(frameId) => DuplicateFrame(s, frameId, key)
    case ChangeDimensions(gridProperty, increment) => ChangeDimensions(ops, s, gridProperty, increment)
    case ChangeFrameInterval(frameIndex, interval) => ChangeFrameInterval(s, frameIndex, interval)
    case OtherAction(_) => s
  }
}
