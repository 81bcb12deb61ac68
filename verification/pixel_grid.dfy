/** The cell grid of one frame, and the four grid primitives the frames
    reducer imports from the pixelGrid module. That module is not part of this
    model: its primitives are carried as uninterpreted function values in
    `GridOps`, so nothing proved here depends on how they work. */
module PixelGrid {

  /** One cell: `used` is false for a transparent cell, and `color` is a hex
      colour without the leading '#'. */
  datatype Cell = Cell(used: bool, color: string)

  /** A frame's cells in row-major order. */
  type Grid = seq<Cell>

  /** The dimension a resize acts on (the `gridProperty` of the action). */
  datatype Axis = Columns | Rows

  /** The canvas dimensions handed to `resize`. */
  datatype Dims = Dims(columns: int, rows: int)

  /** The options object handed to `applyBucket`. */
  datatype BucketRequest = BucketRequest(id: nat, paletteColor: string, columns: int, rows: int)

  /** The imported primitives `create`, `resize`, `applyBucket` and
      `drawPixel`, as opaque functions. */
  datatype GridOps = GridOps(
    create: int -> Grid,
    resize: (Grid, Axis, int, Dims) -> Grid,
    applyBucket: (Grid, BucketRequest) -> Grid,
    drawPixel: (Grid, string, nat) -> Grid)
}
