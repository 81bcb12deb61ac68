/** The animation code generator: a frame's used cells as box-shadow
    entries or as one box-shadow string, the equal-step interval list, the
    keyframe map, and the final CSS text. */
module Helpers {
  import opened PixelGrid
  import opened Decimal

  // ---------------------------------------------------------------------
  // Cell coordinates

  /** Horizontal pixel offset of cell `i`: its column times the cell size,
      shifted by one cell so the shadow is not clipped at the origin. */
  function XCoord(i: nat, columns: int, cellSize: nat): nat
    requires columns > 0
  {
    (i % columns) * cellSize + cellSize
  }

  /** Vertical pixel offset of cell `i`: its row times the cell size, shifted
      by one cell. The row is `parseInt(i / columns, 10)`, which this model
      reads as floor division. That holds while the floating-point quotient
      is written in plain decimal form, that is while it is 0 or at least
      10^-6 (so for fewer than 10^6 columns). */
  function YCoord(i: nat, columns: int, cellSize: nat): nat
    requires columns > 0
  {
    (i / columns) * cellSize + cellSize
  }

  /** The cell index whose shadow sits at pixel offsets (x, y). */
  function CellAt(x: int, y: int, columns: int, cellSize: nat): int
    requires columns > 0 && cellSize > 0
  {
    ((y - cellSize) / cellSize) * columns + (x - cellSize) / cellSize
  }

  /** A positive multiplier does not shrink a natural number. */
  lemma MulAtLeast(d: nat, b: nat)
    requires d >= 1
    ensures d * b >= b
  {
    assert d * b == (d - 1) * b + b;
  }

  /** Quotient and remainder are unique: if x = q·b + r with 0 <= r < b,
      then x / b is q. */
  lemma DivUnique(x: int, b: int, q: int, r: int)
    requires b > 0 && 0 <= r < b && x == q * b + r
    ensures x / b == q
  {
    var q' := x / b;
    var r' := x % b;
    assert x == q' * b + r';
    assert (q - q') * b == r' - r;
    if q - q' >= 1 {
      MulAtLeast(q - q', b);
      assert false;
    } else if q' - q >= 1 {
      MulAtLeast(q' - q, b);
      assert false;
    }
  }

  /** Dividing a multiple of b by b gives the multiplier back. */
  lemma MulDivCancel(a: nat, b: nat)
    requires b > 0
    ensures (a * b) / b == a
  {
    DivUnique(a * b, b, a, 0);
  }

  /** Distinct cells get distinct offsets: the cell can be read back from
      its coordinates whenever the cell size is positive. */
  lemma CellAtInvertsCoords(i: nat, columns: int, cellSize: nat)
    requires columns > 0 && cellSize > 0
    ensures CellAt(XCoord(i, columns, cellSize), YCoord(i, columns, cellSize), columns, cellSize) == i
  {
    MulDivCancel(i % columns, cellSize);
    MulDivCancel(i / columns, cellSize);
  }

  // ---------------------------------------------------------------------
  // The 'array' branch of generatePixelDrawCss

  /** The indices below `n` of the used cells, in increasing order. */
  function UsedIndices(g: Grid, n: nat): (r: seq<nat>)
    requires n <= |g|
    ensures forall j :: 0 <= j < |r| ==> r[j] < n && g[r[j]].used
    ensures forall j, k :: 0 <= j < k < |r| ==> r[j] < r[k]
    ensures forall i :: 0 <= i < n && g[i].used ==> i in r
  {
    if n == 0 then [] else UsedIndices(g, n - 1) + (if g[n - 1].used then [n - 1] else [])
  }

  /** No index is listed exactly when no cell below `n` is used. */
  lemma UsedIndicesEmpty(g: Grid, n: nat)
    requires n <= |g|
    ensures |UsedIndices(g, n)| == 0 <==> forall i :: 0 <= i < n ==> !g[i].used
  {
    var r := UsedIndices(g, n);
    if |r| > 0 {
      assert g[r[0]].used;
    }
  }

  /** The entry emitted for used cell `i`: `[x, y, '0', '#color']`. */
  function ArrayEntry(g: Grid, i: nat, columns: int, cellSize: nat): seq<string>
    requires i < |g| && columns > 0
  {
    [NatToString(XCoord(i, columns, cellSize)), NatToString(YCoord(i, columns, cellSize)), "0", "#" + g[i].color]
  }

  /** The accumulator of the 'array' reduce after the first `n` cells. */
  function ArrayUpTo(g: Grid, n: nat, columns: int, cellSize: nat): (r: seq<seq<string>>)
    requires n <= |g| && columns > 0
    ensures |r| == |UsedIndices(g, n)|
    ensures forall j :: 0 <= j < |r| ==> r[j] == ArrayEntry(g, UsedIndices(g, n)[j], columns, cellSize)
    ensures forall j :: 0 <= j < |r| ==> |r[j]| == 4
  {
    if n == 0 then []
    else ArrayUpTo(g, n - 1, columns, cellSize)
         + (if g[n - 1].used then [ArrayEntry(g, n - 1, columns, cellSize)] else [])
  }

  /** `generatePixelDrawCss(grid, columns, rows, cellSize, 'array')`: one
      entry per used cell, in index order. */
  function PixelDrawArray(g: Grid, columns: int, cellSize: nat): (r: seq<seq<string>>)
    requires columns > 0
    ensures |r| == |UsedIndices(g, |g|)|
    ensures forall j :: 0 <= j < |r| ==> r[j] == ArrayEntry(g, UsedIndices(g, |g|)[j], columns, cellSize)
    ensures |r| == 0 <==> forall i :: 0 <= i < |g| ==> !g[i].used
  {
    UsedIndicesEmpty(g, |g|);
    ArrayUpTo(g, |g|, columns, cellSize)
  }

  // ---------------------------------------------------------------------
  // The string branch of generatePixelDrawCss

  /** The text the string reduce appends for used cell `i`, leading space
      and trailing comma included. */
  function ShadowPiece(g: Grid, i: nat, columns: int, cellSize: nat): string
    requires i < |g| && columns > 0
  {
    " " + NatToString(XCoord(i, columns, cellSize)) + "px " + NatToString(YCoord(i, columns, cellSize))
      + "px 0 #" + g[i].color + ","
  }

  /** How an array-branch entry reads in the string branch:
      ` {x}px {y}px {z} {colour},`. */
  function ShadowText(e: seq<string>): string
    requires |e| == 4
  {
    " " + e[0] + "px " + e[1] + "px " + e[2] + " " + e[3] + ","
  }

  /** All the entries of the array branch, rendered one after another. A
      non-empty rendering starts with a space and ends with a comma. */
  function JoinShadows(es: seq<seq<string>>): (r: string)
    requires forall j :: 0 <= j < |es| ==> |es[j]| == 4
    ensures |es| == 0 <==> r == ""
    ensures |es| > 0 ==> |r| > 1 && r[0] == ' ' && r[|r| - 1] == ','
  {
    if |es| == 0 then "" else JoinShadows(es[..|es| - 1]) + ShadowText(es[|es| - 1])
  }

  /** The accumulator of the string reduce after the first `n` cells: the
      array branch's entries for those cells, rendered in order. */
  function StringUpTo(g: Grid, n: nat, columns: int, cellSize: nat): (r: string)
    requires n <= |g| && columns > 0
    ensures r == JoinShadows(ArrayUpTo(g, n, columns, cellSize))
  {
    if n == 0 then ""
    else
      var prev := StringUpTo(g, n - 1, columns, cellSize);
      if g[n - 1].used then
        StringStep(g, n, columns, cellSize);
        prev + ShadowPiece(g, n - 1, columns, cellSize)
      else
        assert ArrayUpTo(g, n, columns, cellSize) == ArrayUpTo(g, n - 1, columns, cellSize);
        prev
  }

  /** One used cell extends the rendering by its piece. */
  lemma StringStep(g: Grid, n: nat, columns: int, cellSize: nat)
    requires 0 < n <= |g| && columns > 0 && g[n - 1].used
    ensures JoinShadows(ArrayUpTo(g, n, columns, cellSize))
         == JoinShadows(ArrayUpTo(g, n - 1, columns, cellSize)) + ShadowPiece(g, n - 1, columns, cellSize)
  {
    var e := ArrayEntry(g, n - 1, columns, cellSize);
    var es := ArrayUpTo(g, n, columns, cellSize);
    assert es == ArrayUpTo(g, n - 1, columns, cellSize) + [e];
    assert es[..|es| - 1] == ArrayUpTo(g, n - 1, columns, cellSize);
    ShadowPieceIsText(g, n - 1, columns, cellSize);
  }

  /** The piece of a used cell is its array entry rendered. */
  lemma ShadowPieceIsText(g: Grid, i: nat, columns: int, cellSize: nat)
    requires i < |g| && columns > 0
    ensures ShadowPiece(g, i, columns, cellSize) == ShadowText(ArrayEntry(g, i, columns, cellSize))
  {
    var x := NatToString(XCoord(i, columns, cellSize));
    var y := NatToString(YCoord(i, columns, cellSize));
    var c := g[i].color;
    calc {
      ShadowText(ArrayEntry(g, i, columns, cellSize));
      " " + x + "px " + y + "px " + "0" + " " + ("#" + c) + ",";
      { assert "px " + "0" + " " + ("#" + c) == "px 0 #" + c; }
      " " + x + "px " + y + "px 0 #" + c + ",";
    }
  }

  /** `slice(0, -1)` on a string: drop the last character, if any. */
  function DropLastChar(s: string): string {
    if |s| == 0 then s else s[..|s| - 1]
  }

  /** `generatePixelDrawCss(grid, columns, rows, cellSize, 'string')`: the
      array-branch entries rendered in order with the final comma removed;
      empty exactly when no cell is used, and otherwise starting with the
      space the first piece brings. */
  function PixelDrawString(g: Grid, columns: int, cellSize: nat): (r: string)
    requires columns > 0
    ensures r == DropLastChar(JoinShadows(PixelDrawArray(g, columns, cellSize)))
    ensures r == "" <==> forall i :: 0 <= i < |g| ==> !g[i].used
    ensures r != "" ==> r[0] == ' '
  {
    DropLastChar(StringUpTo(g, |g|, columns, cellSize))
  }

  /** What `generatePixelDrawCss` returns: an array of entries or a CSS
      string. */
  datatype DrawData = FrameArray(entries: seq<seq<string>>) | CssText(css: string)

  /** `generatePixelDrawCss`: the 'array' type selects the array branch and
      every other type the string branch. `rows` is accepted and unused, as
      in the source. */
  function GeneratePixelDrawCss(g: Grid, columns: int, rows: int, cellSize: nat, kind: string): (r: DrawData)
    requires columns > 0
    ensures r.FrameArray? <==> kind == "array"
    ensures r.FrameArray? ==> |r.entries| == |UsedIndices(g, |g|)|
    ensures r.FrameArray? ==> forall j :: 0 <= j < |r.entries| ==>
              r.entries[j] == ArrayEntry(g, UsedIndices(g, |g|)[j], columns, cellSize)
    ensures r.CssText? ==> r.css == DropLastChar(JoinShadows(PixelDrawArray(g, columns, cellSize)))
  {
    if kind == "array" then FrameArray(PixelDrawArray(g, columns, cellSize))
    else CssText(PixelDrawString(g, columns, cellSize))
  }

  // ---------------------------------------------------------------------
  // Animation intervals

  /** `generateAnimationIntervals`: n+1 percentages that start at 0 (when
      there is a frame), end at 100 and go up in equal steps of 100/n. */
  function GenerateAnimationIntervals(frames: seq<Grid>): (r: seq<real>)
    ensures |r| == |frames| + 1
    ensures r[|frames|] == 100.0
    ensures |frames| > 0 ==> r[0] == 0.0
    ensures forall k :: 0 <= k < |frames| ==> r[k + 1] - r[k] == 100.0 / |frames| as real
  {
    var n := |frames|;
    var r := seq(n, k requires 0 <= k < n => k as real * (100.0 / n as real)) + [100.0];
    EqualSteps(r, n);
    r
  }

  /** The list k·(100/n) for k < n, followed by 100, goes up by 100/n at
      every step. */
  lemma EqualSteps(r: seq<real>, n: nat)
    requires |r| == n + 1 && r[n] == 100.0
    requires forall k :: 0 <= k < n ==> r[k] == k as real * (100.0 / n as real)
    ensures forall k :: 0 <= k < n ==> r[k + 1] - r[k] == 100.0 / n as real
  {
    if n > 0 {
      var q := 100.0 / n as real;
      assert (n as real) * q == 100.0;
      forall k | 0 <= k < n ensures r[k + 1] - r[k] == q {
        assert ((k + 1) as real) * q == (k as real) * q + q;
      }
    }
  }

  // ---------------------------------------------------------------------
  // Keyframes

  /** One property of the keyframe object: the key `{min}%, {max}%` kept as
      its two numbers, and the box-shadow value. */
  datatype Keyframe = Keyframe(min: real, max: real, boxShadow: string)

  predicate SameKey(a: Keyframe, b: Keyframe) {
    a.min == b.min && a.max == b.max
  }

  /** No two properties share a key, as in any object. */
  predicate UniqueKeys(kfs: seq<Keyframe>) {
    forall j, k :: 0 <= j < k < |kfs| ==> !SameKey(kfs[j], kfs[k])
  }

  /** Assigning a property: a key already present keeps its place and takes
      the new value, a new key is added last. */
  function Put(kfs: seq<Keyframe>, kf: Keyframe): (r: seq<Keyframe>)
    ensures (forall j :: 0 <= j < |kfs| ==> !SameKey(kfs[j], kf)) ==> r == kfs + [kf]
    ensures |r| <= |kfs| + 1
    ensures forall j :: 0 <= j < |r| ==> r[j] == kf || r[j] in kfs
    ensures UniqueKeys(kfs) ==> UniqueKeys(r)
  {
    if |kfs| == 0 then [kf]
    else if SameKey(kfs[0], kf) then [kf] + kfs[1..]
    else
      var tail := kfs[1..];
      var rest := Put(tail, kf);
      TailKeys(kfs);
      [kfs[0]] + rest
  }

  /** Dropping the first property keeps the rest, and their keys unique. */
  lemma TailKeys(kfs: seq<Keyframe>)
    requires 0 < |kfs|
    ensures forall j :: 1 <= j < |kfs| ==> kfs[1..][j - 1] == kfs[j]
    ensures forall x :: x in kfs[1..] ==> x in kfs
    ensures UniqueKeys(kfs) ==> UniqueKeys(kfs[1..]) && forall j :: 0 <= j < |kfs[1..]| ==> !SameKey(kfs[0], kfs[1..][j])
  {
    assert forall j :: 1 <= j < |kfs| ==> kfs[1..][j - 1] == kfs[j];
  }

  /** Assigning to a key already present replaces its value in place. */
  lemma {:induction false} PutOverwrites(kfs: seq<Keyframe>, kf: Keyframe, j: nat)
    requires UniqueKeys(kfs) && j < |kfs| && SameKey(kfs[j], kf)
    ensures Put(kfs, kf) == kfs[j := kf]
  {
    if j > 0 {
      assert !SameKey(kfs[0], kfs[j]);
      assert UniqueKeys(kfs[1..]) by {
        forall a, b | 0 <= a < b < |kfs[1..]| ensures !SameKey(kfs[1..][a], kfs[1..][b]) {
          assert kfs[1..][a] == kfs[a + 1] && kfs[1..][b] == kfs[b + 1];
        }
      }
      PutOverwrites(kfs[1..], kf, j - 1);
      assert [kfs[0]] + kfs[1..][j - 1 := kf] == kfs[j := kf];
    }
  }

  /** The box-shadow value of one frame: its string-branch CSS followed by
      the cell's height and width. */
  function BoxShadowValue(g: Grid, columns: int, cellSize: nat): string
    requires columns > 0
  {
    PixelDrawString(g, columns, cellSize) + ";height: " + NatToString(cellSize) + "px; width: "
      + NatToString(cellSize) + "px;"
  }

  /** The box-shadow value of every frame, in frame order. */
  function FrameShadows(grids: seq<Grid>, columns: int, cellSize: nat): (r: seq<string>)
    requires columns > 0
    ensures |r| == |grids|
    ensures forall k :: 0 <= k < |grids| ==> r[k] == BoxShadowValue(grids[k], columns, cellSize)
  {
    seq(|grids|, k requires 0 <= k < |grids| => BoxShadowValue(grids[k], columns, cellSize))
  }

  /** The keyframe of frame k: from 0 for the first frame and from just
      after the previous interval otherwise, up to the next interval. */
  function FrameKeyframe(shadows: seq<string>, intervals: seq<real>, k: nat): (r: Keyframe)
    requires k < |shadows| < |intervals|
    ensures r.min == (if k == 0 then 0.0 else intervals[k] + 0.01)
    ensures r.max == intervals[k + 1]
    ensures r.boxShadow == shadows[k]
  {
    Keyframe(if k == 0 then 0.0 else intervals[k] + 0.01, intervals[k + 1], shadows[k])
  }

  /** The intervals strictly increase. */
  predicate StrictlyIncreasing(intervals: seq<real>) {
    forall j, k :: 0 <= j < k < |intervals| ==> intervals[j] < intervals[k]
  }

  /** The keyframe object after the first `n` frames. */
  function KeyframesUpTo(shadows: seq<string>, intervals: seq<real>, n: nat): (r: seq<Keyframe>)
    requires n <= |shadows| < |intervals|
    ensures |r| <= n && UniqueKeys(r)
  {
    if n == 0 then []
    else Put(KeyframesUpTo(shadows, intervals, n - 1), FrameKeyframe(shadows, intervals, n - 1))
  }

  /** Every frame's keyframe, in frame order: the keyframe object as it
      would be if no two frames shared a key. */
  function FramesKeyframes(shadows: seq<string>, intervals: seq<real>, n: nat): (r: seq<Keyframe>)
    requires n <= |shadows| < |intervals|
    ensures |r| == n
    ensures forall k :: 0 <= k < n ==> r[k] == FrameKeyframe(shadows, intervals, k)
  {
    if n == 0 then [] else FramesKeyframes(shadows, intervals, n - 1) + [FrameKeyframe(shadows, intervals, n - 1)]
  }

  /** With strictly increasing intervals no key repeats, so the object
      holds one keyframe per frame, in frame order. */
  lemma {:induction false} KeyframesOnePerFrame(shadows: seq<string>, intervals: seq<real>, n: nat)
    requires n <= |shadows| < |intervals| && StrictlyIncreasing(intervals)
    ensures KeyframesUpTo(shadows, intervals, n) == FramesKeyframes(shadows, intervals, n)
  {
    if n > 0 {
      var prev := FramesKeyframes(shadows, intervals, n - 1);
      var kf := FrameKeyframe(shadows, intervals, n - 1);
      KeyframesOnePerFrame(shadows, intervals, n - 1);
      assert KeyframesUpTo(shadows, intervals, n) == Put(prev, kf);
      NextKeyIsNew(shadows, intervals, prev, n);
      assert Put(prev, kf) == prev + [kf];
    }
  }

  /** The key of frame n-1 differs from the keys of frames 0..n-2, whose
      upper bounds all lie below it. */
  lemma NextKeyIsNew(shadows: seq<string>, intervals: seq<real>, prev: seq<Keyframe>, n: nat)
    requires 0 < n <= |shadows| < |intervals| && StrictlyIncreasing(intervals)
    requires |prev| == n - 1
    requires forall k :: 0 <= k < n - 1 ==> prev[k] == FrameKeyframe(shadows, intervals, k)
    ensures forall j :: 0 <= j < |prev| ==> !SameKey(prev[j], FrameKeyframe(shadows, intervals, n - 1))
  {
    forall j | 0 <= j < |prev| ensures prev[j].max < intervals[n] {
      assert prev[j] == FrameKeyframe(shadows, intervals, j);
      assert intervals[j + 1] < intervals[n];
    }
  }

  /** `generateAnimationCSSData`: the keyframe object for all frames, built
      in frame order. With strictly increasing intervals it holds, for each
      frame k, the key (0 or intervals[k] + 0.01, intervals[k+1]) with that
      frame's box-shadow value. */
  function GenerateAnimationCssData(grids: seq<Grid>, intervals: seq<real>, columns: int, cellSize: nat): (r: seq<Keyframe>)
    requires |grids| < |intervals| && columns > 0
    ensures |r| <= |grids| && UniqueKeys(r)
    ensures StrictlyIncreasing(intervals) ==> |r| == |grids|
    ensures StrictlyIncreasing(intervals) ==> forall k :: 0 <= k < |grids| ==>
              && r[k].min == (if k == 0 then 0.0 else intervals[k] + 0.01)
              && r[k].max == intervals[k + 1]
              && r[k].boxShadow == BoxShadowValue(grids[k], columns, cellSize)
  {
    var shadows := FrameShadows(grids, columns, cellSize);
    if StrictlyIncreasing(intervals) then
      FrameFieldsOfCssData(grids, intervals, columns, cellSize);
      KeyframesUpTo(shadows, intervals, |grids|)
    else KeyframesUpTo(shadows, intervals, |grids|)
  }

  /** With strictly increasing intervals, entry k of the keyframe object
      carries frame k's bounds and box-shadow value. */
  lemma FrameFieldsOfCssData(grids: seq<Grid>, intervals: seq<real>, columns: int, cellSize: nat)
    requires |grids| < |intervals| && columns > 0 && StrictlyIncreasing(intervals)
    ensures var r := KeyframesUpTo(FrameShadows(grids, columns, cellSize), intervals, |grids|);
      && |r| == |grids|
      && forall k :: 0 <= k < |grids| ==>
           && r[k].min == (if k == 0 then 0.0 else intervals[k] + 0.01)
           && r[k].max == intervals[k + 1]
           && r[k].boxShadow == BoxShadowValue(grids[k], columns, cellSize)
  {
    var shadows := FrameShadows(grids, columns, cellSize);
    KeyframesOnePerFrame(shadows, intervals, |grids|);
    var r := KeyframesUpTo(shadows, intervals, |grids|);
    assert r == FramesKeyframes(shadows, intervals, |grids|);
    forall k | 0 <= k < |grids|
      ensures && r[k].min == (if k == 0 then 0.0 else intervals[k] + 0.01)
              && r[k].max == intervals[k + 1]
              && r[k].boxShadow == BoxShadowValue(grids[k], columns, cellSize)
    {
      assert r[k] == FrameKeyframe(shadows, intervals, k);
    }
  }

  // ---------------------------------------------------------------------
  // Export

  /** The text of one keyframe rule, `{min}%, {max}%{ box-shadow: value}`,
      with numbers rendered by `show`. */
  const KeySeparator: string := "%, "
  const RuleOpener: string := "%{ box-shadow: "
  const RuleCloser: string := "}"
  function RuleText(kf: Keyframe, show: real -> string): string {
    show(kf.min) + KeySeparator + show(kf.max) + RuleOpener + kf.boxShadow + RuleCloser
  }

  /** The rules of all keyframes, in insertion order. */
  function RulesText(kfs: seq<Keyframe>, show: real -> string): string {
    RulesBetween(kfs, 0, |kfs|, show)
  }

  /** The rules of keyframes lo..hi-1, in insertion order. */
  function RulesBetween(kfs: seq<Keyframe>, lo: nat, hi: nat, show: real -> string): string
    requires lo <= hi <= |kfs|
    decreases hi
  {
    if hi == lo then "" else RulesBetween(kfs, lo, hi - 1, show) + RuleText(kfs[hi - 1], show)
  }

  const AnimationPrefix: string := ".pixel-animation { position: absolute;"

  /** The base rule: absolute position and the four vendor spellings of the
      looping animation, each carrying the duration in seconds. */
  function AnimationRuleText(duration: string): string {
    AnimationPrefix
      + ("animation: x " + duration + "s infinite;")
      + ("-webkit-animation: x " + duration + "s infinite;")
      + ("-moz-animation: x " + duration + "s infinite;")
      + ("-o-animation: x " + duration + "s infinite; }")
  }

  /** The whole exported text: the base rule, then `@keyframes x {`, then one
      rule per keyframe in insertion order, then the closing brace. */
  function AnimationCss(kfs: seq<Keyframe>, duration: real, show: real -> string): string {
    AnimationRuleText(show(duration)) + "@keyframes x {" + RulesText(kfs, show) + "}"
  }

  /** `exportAnimationData`, appending to the result as the source does.
      Number formatting is the opaque `show`. */
  method ExportAnimationData(keyframes: seq<Keyframe>, duration: real, show: real -> string) returns (result: string)
    ensures result == AnimationCss(keyframes, duration, show)
    ensures |result| > |AnimationPrefix| && result[..|AnimationPrefix|] == AnimationPrefix
    ensures result[|result| - 1] == '}'
  {
    result := "";
    result := result + AnimationPrefix;
    assert result == AnimationPrefix;
    result := result + ("animation: x " + show(duration) + "s infinite;");
    result := result + ("-webkit-animation: x " + show(duration) + "s infinite;");
    result := result + ("-moz-animation: x " + show(duration) + "s infinite;");
    result := result + ("-o-animation: x " + show(duration) + "s infinite; }");
    result := result + "@keyframes x {";
    var i := 0;
    while i < |keyframes|
      invariant 0 <= i <= |keyframes|
      invariant result == AnimationRuleText(show(duration)) + "@keyframes x {" + RulesBetween(keyframes, 0, i, show)
    {
      result := result + RuleText(keyframes[i], show);
      i := i + 1;
    }
    result := result + "}";
    AnimationCssFrame(keyframes, duration, show);
  }

  /** The exported text opens with the base rule's prefix and closes with
      a brace. */
  lemma AnimationCssFrame(kfs: seq<Keyframe>, duration: real, show: real -> string)
    ensures var t := AnimationCss(kfs, duration, show);
      |t| > |AnimationPrefix| && t[..|AnimationPrefix|] == AnimationPrefix && t[|t| - 1] == '}'
  {
    var d := show(duration);
    PrefixSurvives(AnimationPrefix,
      "animation: x " + d + "s infinite;", "-webkit-animation: x " + d + "s infinite;",
      "-moz-animation: x " + d + "s infinite;", "-o-animation: x " + d + "s infinite; }",
      "@keyframes x {", RulesText(kfs, show), "}");
  }

  /** Appending never disturbs a text's beginning. */
  lemma PrefixSurvives(p: string, a: string, b: string, c: string, d: string, e: string, f: string, g: string)
    requires |g| > 0
    ensures var t := p + a + b + c + d + e + f + g;
      |t| > |p| && t[..|p|] == p && t[|t| - 1] == g[|g| - 1]
  {
    var t := p + a + b + c + d + e + f + g;
    assert t == p + (a + b + c + d + e + f + g);
  }

}
