/** Properties of the animation code generator that relate its functions to
    each other. */
module HelpersLemmas {
  import opened PixelGrid
  import opened Decimal
  import opened Helpers

  /** An array-branch entry reads back as the cell it came from: its two
      numbers lead to the cell's index and its last field is '#' followed by
      the cell's colour. */
  lemma ArrayEntryDecodes(g: Grid, i: nat, columns: int, cellSize: nat)
    requires i < |g| && columns > 0 && cellSize > 0
    ensures var e := ArrayEntry(g, i, columns, cellSize);
      && CellAt(DigitsValue(e[0]), DigitsValue(e[1]), columns, cellSize) == i
      && e[2] == "0"
      && e[3][0] == '#' && e[3][1..] == g[i].color
  {
    DigitsValueOfNatToString(XCoord(i, columns, cellSize));
    DigitsValueOfNatToString(YCoord(i, columns, cellSize));
    CellAtInvertsCoords(i, columns, cellSize);
  }

  /** A 1×1 grid with cell size 10 and its one cell painted ff0000 gives
      " 10px 10px 0 #ff0000", leading space included. */
  lemma SingleCellCss()
    ensures PixelDrawString([Cell(true, "ff0000")], 1, 10) == " 10px 10px 0 #ff0000"
  {
    var g := [Cell(true, "ff0000")];
    SingleCellPiece();
    assert StringUpTo(g, 1, 1, 10) == StringUpTo(g, 0, 1, 10) + ShadowPiece(g, 0, 1, 10);
    var s := StringUpTo(g, 1, 1, 10);
    assert s == " 10px 10px 0 #ff0000,";
    assert s[..|s| - 1] == " 10px 10px 0 #ff0000";
  }

  lemma SingleCellPiece()
    ensures ShadowPiece([Cell(true, "ff0000")], 0, 1, 10) == " 10px 10px 0 #ff0000,"
  {
    TenIsTen();
    PieceWithTexts([Cell(true, "ff0000")], 0, 1, 10, "10", "10");
    LiteralPiece();
  }

  /** The piece of cell i, given the decimal texts of its coordinates. */
  lemma PieceWithTexts(g: Grid, i: nat, columns: int, cellSize: nat, xs: string, ys: string)
    requires i < |g| && columns > 0
    requires NatToString(XCoord(i, columns, cellSize)) == xs
    requires NatToString(YCoord(i, columns, cellSize)) == ys
    ensures ShadowPiece(g, i, columns, cellSize) == " " + xs + "px " + ys + "px 0 #" + g[i].color + ","
  {
  }

  lemma LiteralPiece()
    ensures " " + "10" + "px " + "10" + "px 0 #" + "ff0000" + "," == " 10px 10px 0 #ff0000,"
  {
  }

  lemma TenIsTen()
    ensures NatToString(10) == "10"
  {
    assert NatToString(1) == [DigitChar(1)] == "1";
    assert DigitChar(0) == '0';
  }

  /** Four frames give the intervals 0, 25, 50, 75, 100. */
  lemma FourFrameIntervals(a: Grid, b: Grid, c: Grid, d: Grid)
    ensures GenerateAnimationIntervals([a, b, c, d]) == [0.0, 25.0, 50.0, 75.0, 100.0]
  {
    var r := GenerateAnimationIntervals([a, b, c, d]);
    assert r[1] == 25.0 && r[2] == 50.0 && r[3] == 75.0;
  }

  /** A list whose neighbours increase is strictly increasing. */
  lemma {:induction false} NeighboursIncrease(r: seq<real>, j: nat, k: nat)
    requires forall i :: 0 <= i < |r| - 1 ==> r[i] < r[i + 1]
    requires j < k < |r|
    ensures r[j] < r[k]
    decreases k - j
  {
    if j + 1 < k {
      NeighboursIncrease(r, j + 1, k);
    }
  }

  /** With at least one frame, the animation intervals strictly increase. */
  lemma IntervalsStrictlyIncrease(frames: seq<Grid>)
    requires 0 < |frames|
    ensures StrictlyIncreasing(GenerateAnimationIntervals(frames))
  {
    var r := GenerateAnimationIntervals(frames);
    assert 100.0 / |frames| as real > 0.0;
    forall j, k | 0 <= j < k < |r| ensures r[j] < r[k] {
      NeighboursIncrease(r, j, k);
    }
  }

  /** Built from its own intervals, the keyframe data takes the strictly
      increasing case: one entry per frame, frame k spanning from 0 (first
      frame) or just after intervals[k] up to intervals[k+1], the first
      starting at 0 and the last ending at 100. */
  lemma AnimationKeyframesOnePerFrame(grids: seq<Grid>, columns: int, cellSize: nat)
    requires 0 < |grids| && columns > 0
    ensures var intervals := GenerateAnimationIntervals(grids);
      var r := GenerateAnimationCssData(grids, intervals, columns, cellSize);
      && StrictlyIncreasing(intervals)
      && |r| == |grids|
      && r[0].min == 0.0
      && r[|grids| - 1].max == 100.0
      && forall k :: 0 <= k < |grids| ==>
           && r[k].min == (if k == 0 then 0.0 else intervals[k] + 0.01)
           && r[k].max == intervals[k + 1]
           && r[k].boxShadow == BoxShadowValue(grids[k], columns, cellSize)
  {
    IntervalsStrictlyIncrease(grids);
  }

  /** The rules of keyframes lo..hi-1 are those of lo..mid-1 followed by
      those of mid..hi-1. */
  lemma {:induction false} RulesSplit(kfs: seq<Keyframe>, lo: nat, mid: nat, hi: nat, show: real -> string)
    requires lo <= mid <= hi <= |kfs|
    ensures RulesBetween(kfs, lo, hi, show) == RulesBetween(kfs, lo, mid, show) + RulesBetween(kfs, mid, hi, show)
    decreases hi
  {
    if hi > mid {
      RulesSplit(kfs, lo, mid, hi - 1, show);
    }
  }

  /** Keyframe i's rule sits in the exported text right after the base rule,
      the `@keyframes x {` opener and the rules of keyframes 0..i-1. */
  lemma ExportedRuleAt(kfs: seq<Keyframe>, i: nat, duration: real, show: real -> string)
    requires i < |kfs|
    ensures var text := AnimationCss(kfs, duration, show);
      var at := |AnimationRuleText(show(duration))| + |"@keyframes x {"| + |RulesBetween(kfs, 0, i, show)|;
      at + |RuleText(kfs[i], show)| <= |text|
      && text[at..at + |RuleText(kfs[i], show)|] == RuleText(kfs[i], show)
  {
    var before := RulesBetween(kfs, 0, i, show);
    var rule := RuleText(kfs[i], show);
    var after := RulesBetween(kfs, i + 1, |kfs|, show);
    var head := AnimationRuleText(show(duration)) + "@keyframes x {";
    RulesAround(kfs, i, show);
    assert AnimationCss(kfs, duration, show) == head + (before + rule + after) + "}";
    SliceInMiddle(head, before, rule, after, "}");
  }

  /** The rules of all keyframes split around keyframe i. */
  lemma RulesAround(kfs: seq<Keyframe>, i: nat, show: real -> string)
    requires i < |kfs|
    ensures RulesText(kfs, show)
         == RulesBetween(kfs, 0, i, show) + RuleText(kfs[i], show) + RulesBetween(kfs, i + 1, |kfs|, show)
  {
    RulesSplit(kfs, 0, i, |kfs|, show);
    RulesSplit(kfs, i, i + 1, |kfs|, show);
    assert RulesBetween(kfs, i, i + 1, show) == RuleText(kfs[i], show);
  }

  /** The middle part of a text can be read back at its offset. */
  lemma SliceInMiddle(p: string, a: string, b: string, c: string, e: string)
    ensures var t := p + (a + b + c) + e;
      |p| + |a| + |b| <= |t| && t[|p| + |a|..|p| + |a| + |b|] == b
  {
    assert p + (a + b + c) + e == (p + a) + b + (c + e);
    SliceOfConcat(p + a, b, c + e);
  }

  lemma SliceOfConcat(a: string, b: string, c: string)
    ensures (a + b + c)[|a|..|a| + |b|] == b
  {
  }
}
