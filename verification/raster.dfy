/** The colour adjustment and Floyd-Steinberg error diffusion of `applyDither`
    (printer.py), stated on values: a raster is a sequence of rows of RGB pixels,
    row y column x at g[y][x]. Channels are unbounded integers, because the
    diffusion adds to them without clamping. The imperative passes over the
    pixel array are in module DitherPasses and are proved equal to these functions. */
module Raster {
  import opened HexText

  datatype Pixel = Pixel(r: int, g: int, b: int)

  type Grid = seq<seq<Pixel>>

  /** A pixel whose three channels hold v. */
  function Gray(v: int): Pixel { Pixel(v, v, v) }

  /** Every row of g has w pixels. */
  predicate IsGrid(g: Grid, w: nat) { forall y :: 0 <= y < |g| ==> |g[y]| == w }

  // ---------------------------------------------------------------------------
  // Colour adjustment (printer.py:16-24)
  // ---------------------------------------------------------------------------

  /** One channel after brightness and contrast: shift by (brightness - 0.5) * 256,
      stretch around 128 by contrast, clamp to [0, 255] and truncate to an integer. */
  function AdjustChannel(v: int, brightness: real, contrast: real): (r: int)
    ensures 0 <= r <= 255
  {
    var shifted := v as real + (brightness - 0.5) * 256.0;
    var stretched := (shifted - 128.0) * contrast + 128.0;
    var clamped := if stretched < 0.0 then 0.0 else if stretched > 255.0 then 255.0 else stretched;
    clamped.Floor
  }

  /** The adjustment with brightness 0.5 and contrast 1 leaves a channel in [0, 255] alone. */
  lemma AdjustIdentity(v: int)
    requires 0 <= v <= 255
    ensures AdjustChannel(v, 0.5, 1.0) == v
  {
  }

  /** Adjusts the first n of the channels r, g, b (in that order) and keeps the rest. */
  function AdjustFirst(p: Pixel, n: nat, brightness: real, contrast: real): Pixel
    requires n <= 3
  {
    Pixel(if n > 0 then AdjustChannel(p.r, brightness, contrast) else p.r,
          if n > 1 then AdjustChannel(p.g, brightness, contrast) else p.g,
          if n > 2 then AdjustChannel(p.b, brightness, contrast) else p.b)
  }

  function AdjustPixel(p: Pixel, brightness: real, contrast: real): Pixel
  {
    AdjustFirst(p, 3, brightness, contrast)
  }

  /** The raster after the adjustment pass. */
  function Adjusted(g: Grid, brightness: real, contrast: real): (a: Grid)
    ensures |a| == |g|
    ensures forall y :: 0 <= y < |g| ==> |a[y]| == |g[y]|
    ensures forall y, x :: 0 <= y < |g| && 0 <= x < |g[y]| ==> a[y][x] == AdjustPixel(g[y][x], brightness, contrast)
  {
    seq(|g|, y requires 0 <= y < |g| =>
      seq(|g[y]|, x requires 0 <= x < |g[y]| => AdjustPixel(g[y][x], brightness, contrast)))
  }

  predicate InByteRange(p: Pixel) { 0 <= p.r <= 255 && 0 <= p.g <= 255 && 0 <= p.b <= 255 }

  /** After adjustment every channel of every pixel is an integer in [0, 255]. */
  lemma AdjustedInRange(g: Grid, brightness: real, contrast: real, y: nat, x: nat)
    requires y < |g| && x < |g[y]|
    ensures InByteRange(Adjusted(g, brightness, contrast)[y][x])
  {
  }

  /** With brightness 0.5 and contrast 1 the pass changes no pixel of an image whose channels are bytes. */
  lemma {:induction false} AdjustedIdentity(g: Grid)
    requires forall y, x :: 0 <= y < |g| && 0 <= x < |g[y]| ==> InByteRange(g[y][x])
    ensures Adjusted(g, 0.5, 1.0) == g
  {
    var a := Adjusted(g, 0.5, 1.0);
    forall y | 0 <= y < |g| ensures a[y] == g[y] {
      forall x | 0 <= x < |g[y]| ensures a[y][x] == g[y][x] {
        var p := g[y][x];
        AdjustIdentity(p.r);
        AdjustIdentity(p.g);
        AdjustIdentity(p.b);
      }
    }
  }

  // ---------------------------------------------------------------------------
  // Error diffusion (printer.py:8-14, 26-43)
  // ---------------------------------------------------------------------------

  /** Python `int(a / d)` for d > 0: the quotient truncated toward zero. */
  function TruncDiv(a: int, d: int): (q: int)
    requires d > 0
    ensures Abs(q) == Abs(a) / d
    ensures a >= 0 ==> q >= 0
    ensures a <= 0 ==> q <= 0
  {
    if a >= 0 then a / d else -((-a) / d)
  }

  /** `getValue`: the truncated mean of the three channels. */
  function Level(p: Pixel): int { TruncDiv(p.r + p.g + p.b, 3) }

  /** `newLevel`: white (255) from level 128 up, black (0) below. */
  function Threshold(level: int): (v: int)
    ensures v == 0 || v == 255
    ensures v == 255 <==> level >= 128
  {
    if level >= 128 then 255 else 0
  }

  /** The error left at a pixel once it is set to black or white. */
  function Error(p: Pixel): int { Level(p) - Threshold(Level(p)) }

  /** The amount `int(error * k / 16)` passed to a neighbour with weight k. */
  function Share(error: int, k: int): int
    requires k >= 0
  {
    TruncDiv(error * k, 16)
  }

  /** `nudgeValue`: adds v to each channel, without clamping. */
  function Nudge(p: Pixel, v: int): Pixel { Pixel(p.r + v, p.g + v, p.b + v) }

  /** (i, j) comes before (y, x) in the row-major traversal. */
  predicate Earlier(i: int, j: int, y: int, x: int) { i < y || (i == y && j < x) }

  /** (i, j) is (y, x) or one of the four neighbours that receive its error. */
  predicate Near(i: int, j: int, y: int, x: int)
  {
    (i == y && x <= j <= x + 1) || (i == y + 1 && x - 1 <= j <= x + 1)
  }

  /** Pixel (i, j) after the step of the traversal at (y, x): the visited pixel is set
      to black or white, and 7/16, 3/16, 5/16 and 1/16 of its error are added to the
      right, below-left, below and below-right neighbours that exist (h rows, w columns). */
  function VisitedPixel(g: Grid, w: nat, y: nat, x: nat, i: nat, j: nat): Pixel
    requires IsGrid(g, w) && y < |g| && x < w && i < |g| && j < w
  {
    var h := |g|;
    var error := Error(g[y][x]);
    if i == y && j == x then Gray(Threshold(Level(g[y][x])))
    else if i == y && j == x + 1 && x != w - 1 then Nudge(g[i][j], Share(error, 7))
    else if i == y + 1 && j + 1 == x && y != h - 1 && x != 0 then Nudge(g[i][j], Share(error, 3))
    else if i == y + 1 && j == x && y != h - 1 then Nudge(g[i][j], Share(error, 5))
    else if i == y + 1 && j == x + 1 && y != h - 1 && x != w - 1 then Nudge(g[i][j], Share(error, 1))
    else g[i][j]
  }

  /** The raster after the step of the traversal at (y, x). */
  function Visit(g: Grid, w: nat, y: nat, x: nat): (r: Grid)
    requires IsGrid(g, w) && y < |g| && x < w
    ensures IsGrid(r, w) && |r| == |g|
    ensures forall i, j :: 0 <= i < |g| && 0 <= j < w ==> r[i][j] == VisitedPixel(g, w, y, x, i, j)
  {
    seq(|g|, i requires 0 <= i < |g| => seq(w, j requires 0 <= j < w => VisitedPixel(g, w, y, x, i, j)))
  }

  /** A visit sets the visited pixel to its black-or-white decision, writes only to
      pixels not yet visited (the four neighbours that exist), and adds to each of them
      its share of the error, equally on all three channels. */
  lemma VisitEffect(g: Grid, w: nat, y: nat, x: nat)
    requires IsGrid(g, w) && y < |g| && x < w
    ensures var r := Visit(g, w, y, x);
      && r[y][x] == Gray(Threshold(Level(g[y][x])))
      && (forall i, j :: 0 <= i < |g| && 0 <= j < w && Earlier(i, j, y, x) ==> r[i][j] == g[i][j])
      && (forall i, j :: 0 <= i < |g| && 0 <= j < w && !Near(i, j, y, x) ==> r[i][j] == g[i][j])
      && (x + 1 < w ==> r[y][x + 1] == Nudge(g[y][x + 1], Share(Error(g[y][x]), 7)))
      && (y + 1 < |g| && 0 < x ==> r[y + 1][x - 1] == Nudge(g[y + 1][x - 1], Share(Error(g[y][x]), 3)))
      && (y + 1 < |g| ==> r[y + 1][x] == Nudge(g[y + 1][x], Share(Error(g[y][x]), 5)))
      && (y + 1 < |g| && x + 1 < w ==> r[y + 1][x + 1] == Nudge(g[y + 1][x + 1], Share(Error(g[y][x]), 1)))
  {
  }

  /** The raster after visiting (y, 0), ..., (y, x - 1) of row y, starting from g. */
  function RowTo(g: Grid, w: nat, y: nat, x: nat): (r: Grid)
    requires IsGrid(g, w) && y < |g| && x <= w
    ensures IsGrid(r, w) && |r| == |g|
    decreases x
  {
    if x == 0 then g else Visit(RowTo(g, w, y, x - 1), w, y, x - 1)
  }

  /** The raster after visiting every pixel of rows 0, ..., n - 1. */
  function RowsTo(g: Grid, w: nat, n: nat): (r: Grid)
    requires IsGrid(g, w) && n <= |g|
    ensures IsGrid(r, w) && |r| == |g|
  {
    if n == 0 then g else RowTo(RowsTo(g, w, n - 1), w, n - 1, w)
  }

  /** The raster as the traversal reaches (y, x): everything before it has been visited. */
  function Before(g: Grid, w: nat, y: nat, x: nat): (r: Grid)
    requires IsGrid(g, w) && y < |g| && x <= w
    ensures IsGrid(r, w) && |r| == |g|
  {
    RowTo(RowsTo(g, w, y), w, y, x)
  }

  /** The raster after the whole diffusion pass. */
  function Dithered(g: Grid, w: nat): (r: Grid)
    requires IsGrid(g, w)
    ensures IsGrid(r, w) && |r| == |g|
  {
    RowsTo(g, w, |g|)
  }

  lemma RowToStepKeeps(g: Grid, w: nat, y: nat, x: nat, i: nat, j: nat)
    requires IsGrid(g, w) && y < |g| && 0 < x <= w && i < |g| && j < w && Earlier(i, j, y, x - 1)
    ensures RowTo(g, w, y, x)[i][j] == RowTo(g, w, y, x - 1)[i][j]
  {
  }

  /** Visits later in row y leave pixels that come before them untouched. */
  lemma {:induction false} RowToKeeps(g: Grid, w: nat, y: nat, x: nat, x0: nat, i: nat, j: nat)
    requires IsGrid(g, w) && y < |g| && x0 <= x <= w
    requires i < |g| && j < w && Earlier(i, j, y, x0)
    ensures RowTo(g, w, y, x)[i][j] == RowTo(g, w, y, x0)[i][j]
    decreases x
  {
    if x > x0 {
      RowToKeeps(g, w, y, x - 1, x0, i, j);
      RowToStepKeeps(g, w, y, x, i, j);
    }
  }

  lemma {:induction false} RowsToStepKeeps(g: Grid, w: nat, n: nat, i: nat, j: nat)
    requires IsGrid(g, w) && 0 < n <= |g| && i < n - 1 && j < w
    ensures RowsTo(g, w, n)[i][j] == RowsTo(g, w, n - 1)[i][j]
  {
    var prev := RowsTo(g, w, n - 1);
    RowsToUnfold(g, w, n);
    RowToKeeps(prev, w, n - 1, w, 0, i, j);
    RowToZero(prev, w, n - 1);
  }

  lemma RowsToUnfold(g: Grid, w: nat, n: nat)
    requires IsGrid(g, w) && 0 < n <= |g|
    ensures RowsTo(g, w, n) == RowTo(RowsTo(g, w, n - 1), w, n - 1, w)
  {
  }

  lemma BeforeNext(g: Grid, w: nat, y: nat, x: nat)
    requires IsGrid(g, w) && y < |g| && x < w
    ensures Before(g, w, y, x + 1) == Visit(Before(g, w, y, x), w, y, x)
  {
  }

  lemma RowToZero(g: Grid, w: nat, y: nat)
    requires IsGrid(g, w) && y < |g|
    ensures RowTo(g, w, y, 0) == g
  {
  }

  /** Once row i has been traversed, later rows never change it. */
  lemma {:induction false} RowsToKeeps(g: Grid, w: nat, n: nat, n0: nat, i: nat, j: nat)
    requires IsGrid(g, w) && n0 <= n <= |g| && i < n0 && j < w
    ensures RowsTo(g, w, n)[i][j] == RowsTo(g, w, n0)[i][j]
    decreases n
  {
    if n > n0 {
      RowsToKeeps(g, w, n - 1, n0, i, j);
      RowsToStepKeeps(g, w, n, i, j);
    }
  }

  /** The final value of each pixel is the decision taken when the traversal visited it:
      all three channels 255 when the truncated mean at that moment was at least 128,
      all three 0 otherwise. */
  lemma DitheredAt(g: Grid, w: nat, y: nat, x: nat)
    requires IsGrid(g, w) && y < |g| && x < w
    ensures Dithered(g, w)[y][x] == Gray(Threshold(Level(Before(g, w, y, x)[y][x])))
  {
    RowsToKeeps(g, w, |g|, y + 1, y, x);
    RowToKeeps(RowsTo(g, w, y), w, y, w, x + 1, y, x);
  }

  /** After dithering every pixel is black or white, with equal channels. */
  lemma DitheredIsMonochrome(g: Grid, w: nat)
    requires IsGrid(g, w)
    ensures forall y, x :: 0 <= y < |g| && 0 <= x < w ==>
      Dithered(g, w)[y][x] == Gray(0) || Dithered(g, w)[y][x] == Gray(255)
  {
    forall y, x | 0 <= y < |g| && 0 <= x < w
      ensures Dithered(g, w)[y][x] == Gray(0) || Dithered(g, w)[y][x] == Gray(255)
    {
      DitheredAt(g, w, y, x);
    }
  }

  /** The magnitude passed to the neighbours that exist never exceeds the error:
      |int(e*7/16)| + |int(e*3/16)| + |int(e*5/16)| + |int(e/16)| <= |e|, and each
      share has the sign of e, so no error is created or duplicated. */
  lemma {:induction false} SharesWithinError(e: int, right: bool, belowLeft: bool, below: bool, belowRight: bool)
    ensures (if right then Abs(Share(e, 7)) else 0) + (if belowLeft then Abs(Share(e, 3)) else 0)
          + (if below then Abs(Share(e, 5)) else 0) + (if belowRight then Abs(Share(e, 1)) else 0) <= Abs(e)
    ensures e >= 0 ==> Share(e, 7) >= 0 && Share(e, 3) >= 0 && Share(e, 5) >= 0 && Share(e, 1) >= 0
    ensures e <= 0 ==> Share(e, 7) <= 0 && Share(e, 3) <= 0 && Share(e, 5) <= 0 && Share(e, 1) <= 0
  {
    var a := Abs(e);
    assert Abs(e * 7) == 7 * a && Abs(e * 3) == 3 * a && Abs(e * 5) == 5 * a && Abs(e * 1) == a;
    assert (7 * a) / 16 + (3 * a) / 16 + (5 * a) / 16 + a / 16 <= a;
  }

  /** The change one visit makes to the red channel of (i, j), or 0 outside the raster. */
  function Moved(g: Grid, r: Grid, w: nat, i: int, j: int): nat
    requires IsGrid(g, w) && IsGrid(r, w) && |r| == |g|
  {
    if 0 <= i < |g| && 0 <= j < w then Abs(r[i][j].r - g[i][j].r) else 0
  }

  /** q differs from p by the same amount on all three channels. */
  predicate SameShift(p: Pixel, q: Pixel) { q.g - p.g == q.r - p.r && q.b - p.b == q.r - p.r }

  /** A visit changes every pixel other than the visited one by the same amount on all
      three channels. */
  lemma VisitShiftsEvenly(g: Grid, w: nat, y: nat, x: nat)
    requires IsGrid(g, w) && y < |g| && x < w
    ensures var r := Visit(g, w, y, x);
      forall i, j :: 0 <= i < |g| && 0 <= j < w && (i != y || j != x) ==> SameShift(g[i][j], r[i][j])
  {
    var r := Visit(g, w, y, x);
    forall i: nat, j: nat | i < |g| && j < w && (i != y || j != x) ensures SameShift(g[i][j], r[i][j]) {
      assert r[i][j] == VisitedPixel(g, w, y, x, i, j);
    }
  }

  /** Per visit, the total spread over the four neighbours is at most the error. By
      `VisitShiftsEvenly` the red channel's change is each channel's change. */
  lemma VisitSpreadsAtMostError(g: Grid, w: nat, y: nat, x: nat)
    requires IsGrid(g, w) && y < |g| && x < w
    ensures var r := Visit(g, w, y, x);
      Moved(g, r, w, y, x + 1) + Moved(g, r, w, y + 1, x - 1) + Moved(g, r, w, y + 1, x)
        + Moved(g, r, w, y + 1, x + 1) <= Abs(Error(g[y][x]))
  {
    SharesWithinError(Error(g[y][x]), x + 1 < w, y + 1 < |g| && 0 < x, y + 1 < |g|, y + 1 < |g| && x + 1 < w);
  }

  /** A white raster (every channel 255) dithers to itself: no pixel carries an error. */
  lemma {:induction false} WhiteStaysWhite(g: Grid, w: nat)
    requires IsGrid(g, w)
    requires forall y, x :: 0 <= y < |g| && 0 <= x < w ==> g[y][x] == Gray(255)
    ensures forall y, x :: 0 <= y < |g| && 0 <= x < w ==> Dithered(g, w)[y][x] == Gray(255)
  {
    forall n | 0 <= n <= |g|
      ensures forall y, x :: 0 <= y < |g| && 0 <= x < w ==> RowsTo(g, w, n)[y][x] == Gray(255)
    {
      WhiteRows(g, w, n);
    }
  }

  lemma {:induction false} WhiteRows(g: Grid, w: nat, n: nat)
    requires IsGrid(g, w) && n <= |g|
    requires forall y, x :: 0 <= y < |g| && 0 <= x < w ==> g[y][x] == Gray(255)
    ensures forall y, x :: 0 <= y < |g| && 0 <= x < w ==> RowsTo(g, w, n)[y][x] == Gray(255)
    decreases n
  {
    if n > 0 {
      WhiteRows(g, w, n - 1);
      WhiteRow(RowsTo(g, w, n - 1), w, n - 1, w);
    }
  }

  lemma {:induction false} WhiteRow(g: Grid, w: nat, y: nat, x: nat)
    requires IsGrid(g, w) && y < |g| && x <= w
    requires forall i, j :: 0 <= i < |g| && 0 <= j < w ==> g[i][j] == Gray(255)
    ensures forall i, j :: 0 <= i < |g| && 0 <= j < w ==> RowTo(g, w, y, x)[i][j] == Gray(255)
    decreases x
  {
    if x > 0 {
      WhiteRow(g, w, y, x - 1);
      var prev := RowTo(g, w, y, x - 1);
      assert Level(prev[y][x - 1]) == 255;
      assert Error(prev[y][x - 1]) == 0;
      assert Share(0, 7) == 0 && Share(0, 3) == 0 && Share(0, 5) == 0 && Share(0, 1) == 0;
    }
  }
}
