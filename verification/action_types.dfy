/** The actions the frames reducer dispatches on, one constructor per action
    type it handles, plus one for every other action of the application. */
module ActionTypes {
  import opened PixelGrid
  import opened FrameState

  /** What `parseInt(text, 10)` returned for an option: not a number, or an
      integer. */
  datatype Parsed = NaN | Number(value: int)

  /** The `options` of an initialising action, already parsed. */
  datatype Options = Options(columns: Parsed, rows: Parsed)

  datatype Action =
    | SetInitialState(options: Options)
    | NewProject(options: Options)
    | SetDrawing(frames: seq<Frame>, columns: int, rows: int)
    | ApplyPencil(paletteColor: string, id: nat)
    | ApplyEraser(id: nat)
    | ApplyBucket(id: nat, paletteColor: string)
    | SetResetGrid
    | ChangeActiveFrame(frameIndex: nat)
    | CreateNewFrame
    | DeleteFrame(frameId: nat)
    | DuplicateFrame(frameId: nat)
    | ChangeDimensions(gridProperty: Axis, increment: int)
    | ChangeFrameInterval(frameIndex: nat, interval: real)
    | OtherAction(name: string)
}
