/** `applyDither` (printer.py:7-55) as the source runs it: three passes over the
    image's pixel-access object, modelled as a two-dimensional array a[y, x]
    (a.Length0 rows of a.Length1 pixels; PIL writes the same pixel as pixels[x, y]).
    The first two passes update the pixels in place, the third builds the bit
    string by appending. Each pass is proved equal to its function in Raster or BitPack. */
module DitherPasses {
  import opened HexText
  import opened Raster
  import opened BitPack

  /** The array holds the raster g. */
  ghost predicate Holds(a: array2<Pixel>, g: Grid)
    reads a
  {
    |g| == a.Length0 && IsGrid(g, a.Length1) &&
    forall y, x :: 0 <= y < a.Length0 && 0 <= x < a.Length1 ==> a[y, x] == g[y][x]
  }

  /** The raster the array currently holds. */
  ghost function Snapshot(a: array2<Pixel>): (g: Grid)
    reads a
    ensures Holds(a, g)
  {
    seq(a.Length0, y requires 0 <= y < a.Length0 reads a =>
      seq(a.Length1, x requires 0 <= x < a.Length1 reads a => a[y, x]))
  }

  /** The brightness/contrast pass (printer.py:16-24): channel by channel, each read
      from the pixel's current value and written back as a whole pixel. */
  method AdjustPass(a: array2<Pixel>, brightness: real, contrast: real)
    modifies a
    ensures Holds(a, Adjusted(old(Snapshot(a)), brightness, contrast))
    ensures forall y, x :: 0 <= y < a.Length0 && 0 <= x < a.Length1 ==> InByteRange(a[y, x])
  {
    ghost var g0 := Snapshot(a);
    var h, w := a.Length0, a.Length1;
    for y := 0 to h
      invariant forall i, j :: 0 <= i < y && 0 <= j < w ==> a[i, j] == AdjustPixel(g0[i][j], brightness, contrast)
      invariant forall i, j :: y <= i < h && 0 <= j < w ==> a[i, j] == g0[i][j]
    {
      for x := 0 to w
        invariant forall i, j :: 0 <= i < y && 0 <= j < w ==> a[i, j] == AdjustPixel(g0[i][j], brightness, contrast)
        invariant forall j :: 0 <= j < x ==> a[y, j] == AdjustPixel(g0[y][j], brightness, contrast)
        invariant forall i, j :: y <= i < h && 0 <= j < w && (i > y || j >= x) ==> a[i, j] == g0[i][j]
      {
        ghost var before := Snapshot(a);
        for c := 0 to 3
          invariant a[y, x] == AdjustFirst(g0[y][x], c, brightness, contrast)
          invariant forall i, j :: 0 <= i < h && 0 <= j < w && (i != y || j != x) ==> a[i, j] == before[i][j]
        {
          var p := a[y, x];
          var arr := [p.r, p.g, p.b];
          arr := arr[c := AdjustChannel(arr[c], brightness, contrast)];
          a[y, x] := Pixel(arr[0], arr[1], arr[2]);
        }
      }
    }
  }

  /** The error-diffusion pass (printer.py:26-43), in row-major order; each visit reads
      the pixel's current (already nudged) value. */
  method DitherPass(a: array2<Pixel>)
    modifies a
    ensures Holds(a, Dithered(old(Snapshot(a)), a.Length1))
    ensures forall y, x :: 0 <= y < a.Length0 && 0 <= x < a.Length1 ==> a[y, x] == Gray(0) || a[y, x] == Gray(255)
  {
    ghost var g0 := Snapshot(a);
    var h, w := a.Length0, a.Length1;
    for y := 0 to h
      invariant Holds(a, RowsTo(g0, w, y))
    {
      RowToZero(RowsTo(g0, w, y), w, y);
      for x := 0 to w
        invariant Holds(a, Before(g0, w, y, x))
      {
        VisitPixel(a, y, x, Before(g0, w, y, x));
        BeforeNext(g0, w, y, x);
      }
      RowsToUnfold(g0, w, y + 1);
    }
    DitheredIsMonochrome(g0, w);
  }

  /** The body of the diffusion loop at (y, x), with `setValue` and `nudgeValue`
      (printer.py:8-14, 27-43) written out as array updates. */
  method VisitPixel(a: array2<Pixel>, y: nat, x: nat, ghost cur: Grid)
    requires y < a.Length0 && x < a.Length1 && Holds(a, cur)
    modifies a
    ensures Holds(a, Visit(cur, a.Length1, y, x))
  {
    var h, w := a.Length0, a.Length1;
    var bottomRow := y == h - 1;
    var leftEdge := x == 0;
    var rightEdge := x == w - 1;
    var level := Level(a[y, x]);
    var newLevel := Threshold(level);
    a[y, x] := Gray(newLevel);
    var error := level - newLevel;
    if !rightEdge {
      a[y, x + 1] := Nudge(a[y, x + 1], Share(error, 7));
    }
    if !bottomRow && !leftEdge {
      a[y + 1, x - 1] := Nudge(a[y + 1, x - 1], Share(error, 3));
    }
    if !bottomRow {
      a[y + 1, x] := Nudge(a[y + 1, x], Share(error, 5));
    }
    if !bottomRow && !rightEdge {
      a[y + 1, x + 1] := Nudge(a[y + 1, x + 1], Share(error, 1));
    }
    VisitWritten(a, cur, y, x);
  }

  /** An array that differs from cur exactly as the visit at (y, x) says holds the
      visited raster. */
  lemma VisitWritten(a: array2<Pixel>, cur: Grid, y: nat, x: nat)
    requires y < a.Length0 && x < a.Length1 && |cur| == a.Length0 && IsGrid(cur, a.Length1)
    requires var e := Error(cur[y][x]);
      && a[y, x] == Gray(Threshold(Level(cur[y][x])))
      && (x + 1 < a.Length1 ==> a[y, x + 1] == Nudge(cur[y][x + 1], Share(e, 7)))
      && (y + 1 < a.Length0 && 0 < x ==> a[y + 1, x - 1] == Nudge(cur[y + 1][x - 1], Share(e, 3)))
      && (y + 1 < a.Length0 ==> a[y + 1, x] == Nudge(cur[y + 1][x], Share(e, 5)))
      && (y + 1 < a.Length0 && x + 1 < a.Length1 ==> a[y + 1, x + 1] == Nudge(cur[y + 1][x + 1], Share(e, 1)))
    requires forall i, j :: 0 <= i < a.Length0 && 0 <= j < a.Length1 && !Near(i, j, y, x) ==> a[i, j] == cur[i][j]
    ensures Holds(a, Visit(cur, a.Length1, y, x))
  {
    var w := a.Length1;
    var r := Visit(cur, w, y, x);
    VisitEffect(cur, w, y, x);
    forall i, j | 0 <= i < a.Length0 && 0 <= j < w ensures a[i, j] == r[i][j] {
      if Near(i, j, y, x) {
        assert r[i][j] == VisitedPixel(cur, w, y, x, i, j);
      }
    }
  }

  /** The packing loop (printer.py:44-53) followed by the start marker (printer.py:53). */
  method PackBits(a: array2<Pixel>) returns (bits: string)
    ensures bits == FrameBits(Snapshot(a))
  {
    ghost var g := Snapshot(a);
    var h, w := a.Length0, a.Length1;
    var result := "";
    for y := 0 to h
      invariant result == GridBits(g[..y])
    {
      for x := 0 to w
        invariant result == GridBits(g[..y]) + RowBits(g[y][..x])
      {
        var p := a[y, x];
        if p.r + p.g + p.b > 600 {
          result := result + "0";
        } else {
          result := result + "1";
        }
        assert g[y][..x + 1][..x] == g[y][..x];
      }
      assert g[y][..w] == g[y];
      assert g[..y + 1][..y] == g[..y];
    }
    assert g[..h] == g;
    bits := "1" + Repeat('0', 318) + result;
    assert bits == StartBits() + GridBits(g);
  }

  /** `applyDither`: adjust, diffuse, pack, and print the bit string in hexadecimal. */
  method ApplyDither(a: array2<Pixel>, brightness: real, contrast: real) returns (hex: string)
    modifies a
    ensures Holds(a, Dithered(Adjusted(old(Snapshot(a)), brightness, contrast), a.Length1))
    ensures hex == Payload(Dithered(Adjusted(old(Snapshot(a)), brightness, contrast), a.Length1))
  {
    ghost var g0 := Snapshot(a);
    AdjustPass(a, brightness, contrast);
    ghost var g1 := Snapshot(a);
    assert g1 == Adjusted(g0, brightness, contrast) by {
      SameRaster(a, g1, Adjusted(g0, brightness, contrast));
    }
    DitherPass(a);
    ghost var g2 := Snapshot(a);
    assert g2 == Dithered(g1, a.Length1) by {
      SameRaster(a, g2, Dithered(g1, a.Length1));
    }
    var bits := PackBits(a);
    hex := LowerHex(BinaryValue(bits));
  }

  /** Two rasters the array holds at once are equal. */
  lemma SameRaster(a: array2<Pixel>, g: Grid, g': Grid)
    requires Holds(a, g) && Holds(a, g')
    ensures g == g'
  {
    forall y | 0 <= y < |g| ensures g[y] == g'[y] {
      forall x | 0 <= x < |g[y]| ensures g[y][x] == g'[y][x] {
        assert g[y][x] == a[y, x];
      }
    }
  }
}
