/** Properties of the frames reducer that relate several operations, or that
    follow from an operation's contract. */
module FramesReducerLemmas {
  import opened PixelGrid
  import opened Intervals
  import opened FrameState
  import opened FramesReducer

  /** An evenly spaced list ends at exactly 100, its intervals never
      decrease and stay within 0..100, and every interval but the last is the
      even share rounded half-up to one decimal. */
  lemma EvenlySpacedShape(list: seq<Frame>)
    requires EvenlySpaced(list) && 0 < |list|
    ensures list[|list| - 1].interval == 100.0
    ensures forall j, k :: 0 <= j <= k < |list| ==>
              0.0 <= list[j].interval <= list[k].interval <= 100.0
    ensures forall k :: 0 <= k < |list| - 1 ==>
              IsTenthRoundingOf(list[k].interval, EqualShare(k, |list|))
  {
    forall j, k | 0 <= j <= k < |list|
      ensures 0.0 <= list[j].interval <= list[k].interval <= 100.0
    {
      EvenIntervalMonotone(j, k, |list|);
    }
    forall k | 0 <= k < |list| - 1
      ensures IsTenthRoundingOf(list[k].interval, EqualShare(k, |list|))
    {
      EvenIntervalIsRoundedShare(k, |list|);
    }
  }

  /** `resetIntervals` leaves a list alone exactly when it is already evenly
      spaced. */
  lemma ResetIntervalsFixpoint(list: seq<Frame>)
    ensures ResetIntervals(list) == list <==> EvenlySpaced(list)
  {
    if EvenlySpaced(list) {
      var r := ResetIntervals(list);
      assert forall k :: 0 <= k < |list| ==> r[k] == list[k];
    }
  }

  /** Respacing twice is respacing once. */
  lemma ResetIntervalsIdempotent(list: seq<Frame>)
    ensures ResetIntervals(ResetIntervals(list)) == ResetIntervals(list)
  {
    ResetIntervalsFixpoint(ResetIntervals(list));
  }

  /** Four frames end at 25, 50, 75 and 100. */
  lemma ResetIntervalsFourFrames(a: Frame, b: Frame, c: Frame, d: Frame)
    ensures var r := ResetIntervals([a, b, c, d]);
      r[0].interval == 25.0 && r[1].interval == 50.0 && r[2].interval == 75.0 && r[3].interval == 100.0
  {
    RoundTenthUnique(EqualShare(0, 4), 25.0);
    RoundTenthUnique(EqualShare(1, 4), 50.0);
    RoundTenthUnique(EqualShare(2, 4), 75.0);
  }

  /** Three frames end at 33.3, 66.7 and 100. */
  lemma ResetIntervalsThreeFrames(a: Frame, b: Frame, c: Frame)
    ensures var r := ResetIntervals([a, b, c]);
      r[0].interval == 33.3 && r[1].interval == 66.7 && r[2].interval == 100.0
  {
    RoundTenthUnique(EqualShare(0, 3), 33.3);
    RoundTenthUnique(EqualShare(1, 3), 66.7);
  }

  /** Deleting the frame just created gives back the original list, with
      the last frame active. */
  lemma DeleteUndoesCreate(ops: GridOps, s: Frames, key: Key)
    requires Valid(s) && EvenlySpaced(s.list)
    ensures var t := DeleteFrame(CreateNewFrame(ops, s, key), |s.list|);
      t.list == s.list && t.activeIndex == |s.list| - 1
      && t.columns == s.columns && t.rows == s.rows
  {
    var c := CreateNewFrame(ops, s, key);
    var t := DeleteFrame(c, |s.list|);
    assert c.list[..|s.list|] + c.list[|s.list| + 1..] == c.list[..|s.list|];
    forall k | 0 <= k < |s.list| ensures t.list[k] == s.list[k] {
      assert SameFrame(t.list[k], s.list[k]);
    }
  }

  /** Deleting the copy a duplication inserted gives back the original
      list; the active index then jumps to the last frame. */
  lemma DeleteUndoesDuplicate(s: Frames, frameId: nat, key: Key)
    requires Valid(s) && EvenlySpaced(s.list) && frameId < |s.list|
    ensures var t := DeleteFrame(DuplicateFrame(s, frameId, key), frameId);
      t.list == s.list && t.activeIndex == |s.list| - 1
  {
    var d := DuplicateFrame(s, frameId, key);
    var t := DeleteFrame(d, frameId);
    forall k | 0 <= k < |s.list| ensures t.list[k] == s.list[k] {
      if k < frameId {
        assert SameFrame(t.list[k], d.list[k]) && SameFrame(d.list[k], s.list[k]);
      } else {
        assert SameFrame(t.list[k], d.list[k + 1]) && SameFrame(d.list[k + 1], s.list[k]);
      }
    }
  }

  /** After deleting a frame other than the active one, the active index
      does not follow its frame: with five frames, frame 1 active and frame 0
      deleted, frame 4 of the old list becomes active. */
  lemma DeleteFrameActiveJumpsToLast(s: Frames)
    requires |s.list| == 5 && s.activeIndex == 1
    ensures DeleteFrame(s, 0).activeIndex == 3
    ensures SameFrame(DeleteFrame(s, 0).list[3], s.list[4])
  {
  }

  /** Changing a dimension by `increment` and then by `-increment` restores
      both dimensions and every frame's interval and key; the grids are
      whatever the resize primitive made of them. */
  lemma ChangeDimensionsInverse(ops: GridOps, s: Frames, gridProperty: Axis, increment: int)
    ensures var t := ChangeDimensions(ops, ChangeDimensions(ops, s, gridProperty, increment), gridProperty, -increment);
      && t.columns == s.columns && t.rows == s.rows && t.activeIndex == s.activeIndex
      && |t.list| == |s.list|
      && forall k :: 0 <= k < |s.list| ==> t.list[k].interval == s.list[k].interval && t.list[k].key == s.list[k].key
  {
  }

  /** Nothing stops a dimension from reaching zero or going below it. */
  lemma ChangeDimensionsHasNoFloor(ops: GridOps, s: Frames)
    requires s.columns == 1
    ensures ChangeDimensions(ops, s, Columns, -1).columns == 0
    ensures ChangeDimensions(ops, s, Columns, -2).columns == -1
  {
  }

  /** Setting a frame's interval back to its old value restores the state. */
  lemma ChangeFrameIntervalInverse(s: Frames, frameIndex: nat, interval: real)
    requires frameIndex < |s.list|
    ensures ChangeFrameInterval(ChangeFrameInterval(s, frameIndex, interval), frameIndex, s.list[frameIndex].interval) == s
  {
    var t := ChangeFrameInterval(ChangeFrameInterval(s, frameIndex, interval), frameIndex, s.list[frameIndex].interval);
    assert t.list == s.list;
  }
}
