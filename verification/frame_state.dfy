/** The state the frames reducer owns: an ordered list of frames, the canvas
    dimensions and the index of the frame being edited. */
module FrameState {
  import opened PixelGrid
  import opened Intervals

  /** A frame's identity for list diffing. The source draws these from a
      random id generator; here they are opaque strings supplied by the caller. */
  type Key = string

  /** One animation frame: its cells, the percentage of the timeline at which
      it ends, and its key. */
  datatype Frame = Frame(grid: Grid, interval: real, key: Key)

  /** `a` and `b` are the same frame apart from, possibly, their intervals. */
  predicate SameFrame(a: Frame, b: Frame) {
    a.grid == b.grid && a.key == b.key
  }

  /** The reducer's state. */
  datatype Frames = Frames(list: seq<Frame>, columns: int, rows: int, activeIndex: nat)

  /** The shape every editing operation keeps: at least one frame, and the
      active index names one of them. */
  predicate Valid(s: Frames) {
    0 < |s.list| && s.activeIndex < |s.list|
  }

  /** Every frame carries the interval `resetIntervals` assigns to its
      position. */
  predicate EvenlySpaced(list: seq<Frame>) {
    forall k :: 0 <= k < |list| ==> list[k].interval == EvenInterval(k, |list|)
  }

  /** `t` is `s` with only the active frame's grid replaced: same length,
      same dimensions, same active index, every other frame identical, and the
      active frame's interval and key kept. */
  predicate OnlyActiveGridChanges(s: Frames, t: Frames)
    requires s.activeIndex < |s.list|
  {
    && |t.list| == |s.list|
    && t.columns == s.columns && t.rows == s.rows && t.activeIndex == s.activeIndex
    && t.list[s.activeIndex].interval == s.list[s.activeIndex].interval
    && t.list[s.activeIndex].key == s.list[s.activeIndex].key
    && forall k :: 0 <= k < |s.list| && k != s.activeIndex ==> t.list[k] == s.list[k]
  }
}
