/** The last part of `applyDither` (printer.py:44-55): one character per pixel in
    row-major order, behind a fixed start marker, and the whole string read as a
    binary number and printed in lowercase hexadecimal. */
module BitPack {
  import opened HexText
  import opened Raster

  /** '0' for a light pixel (channel sum above 600), '1' for a dark one. */
  function PixelBit(p: Pixel): (c: char)
    ensures c == '1' <==> p.r + p.g + p.b <= 600
  {
    if p.r + p.g + p.b > 600 then '0' else '1'
  }

  /** The characters of one row, left to right. */
  function RowBits(row: seq<Pixel>): (s: string)
    ensures |s| == |row|
    ensures forall j :: 0 <= j < |row| ==> s[j] == PixelBit(row[j])
  {
    if row == [] then [] else RowBits(row[..|row| - 1]) + [PixelBit(row[|row| - 1])]
  }

  /** The characters of all rows, top to bottom. */
  function GridBits(g: Grid): string
  {
    if g == [] then [] else GridBits(g[..|g| - 1]) + RowBits(g[|g| - 1])
  }

  /** The bits of a w-wide raster are w * h characters. */
  lemma {:induction false} GridBitsLength(g: Grid, w: nat)
    requires IsGrid(g, w)
    ensures |GridBits(g)| == |g| * w
    decreases |g|
  {
    if g != [] {
      GridBitsLength(g[..|g| - 1], w);
      assert (|g| - 1) * w + w == |g| * w;
    }
  }

  /** Pixel (y, x) of a w-wide raster is character y * w + x: the order is row-major. */
  lemma {:induction false} GridBitAt(g: Grid, w: nat, y: nat, x: nat)
    requires IsGrid(g, w) && y < |g| && x < w
    ensures |GridBits(g)| == |g| * w && y * w + x < |g| * w
    ensures GridBits(g)[y * w + x] == PixelBit(g[y][x])
    decreases |g|
  {
    var n := |g| - 1;
    var front := g[..n];
    GridBitsLength(g, w);
    GridBitsLength(front, w);
    assert GridBits(g) == GridBits(front) + RowBits(g[n]);
    if y < n {
      RowIndexBelow(y, n, w, x);
      GridBitAt(front, w, y, x);
      assert front[y] == g[y];
    } else {
      RowIndexBelow(y, |g|, w, x);
    }
  }

  lemma RowIndexBelow(y: nat, n: nat, w: nat, x: nat)
    requires y < n && x < w
    ensures y * w + x < n * w
  {
    MulMonotone(y + 1, n, w);
    assert (y + 1) * w == y * w + w;
  }

  lemma MulMonotone(a: nat, b: nat, c: nat)
    requires a <= b
    ensures a * c <= b * c
  {
  }

  lemma RowBitsBinary(row: seq<Pixel>)
    ensures IsBinary(RowBits(row))
  {
  }

  lemma {:induction false} GridBitsBinary(g: Grid)
    ensures IsBinary(GridBits(g))
    decreases |g|
  {
    if g != [] {
      GridBitsBinary(g[..|g| - 1]);
      RowBitsBinary(g[|g| - 1]);
    }
  }

  /** The start marker: a '1' followed by 318 '0's. */
  function StartBits(): (s: string)
    ensures |s| == 319 && s[0] == '1' && forall i :: 1 <= i < 319 ==> s[i] == '0'
  {
    seq(319, i => if i == 0 then '1' else '0')
  }

  /** The whole bit string: marker, then one character per pixel. */
  function FrameBits(g: Grid): (s: string)
    ensures IsBinary(s)
  {
    GridBitsBinary(g);
    StartBits() + GridBits(g)
  }

  /** The hexadecimal payload `applyDither` returns. */
  function Payload(g: Grid): string
  {
    LowerHex(BinaryValue(FrameBits(g)))
  }

  /** The payload is ceil((319 + w * h) / 4) lowercase digits, starts with a non-zero
      digit, and reads back as the number the bit string spells. */
  lemma PayloadShape(g: Grid, w: nat)
    requires IsGrid(g, w)
    ensures var p := Payload(g);
      && |p| == (319 + |g| * w + 3) / 4
      && p[0] != '0'
      && (forall i :: 0 <= i < |p| ==> IsLowerDigit(p[i]))
      && IsHexString(p)
      && HexToNat(p) == BinaryValue(FrameBits(g))
  {
    var bits := FrameBits(g);
    GridBitsLength(g, w);
    var len := |bits|;
    assert len == 319 + |g| * w;
    BinaryValueBounds(bits);
    var k := (len + 3) / 4;
    Pow2Monotone(4 * (k - 1), len - 1);
    Pow2Monotone(len, 4 * k);
    LowerHexLength(BinaryValue(bits), k);
    LowerHexRoundTrip(BinaryValue(bits));
  }

  /** For the printer's 384-dot width the payload is 80 + 96 * h digits: always an even
      number, so the frames cut from it are whole bytes. */
  lemma PayloadLength384(g: Grid)
    requires IsGrid(g, 384)
    ensures |Payload(g)| == 80 + 96 * |g|
  {
    PayloadShape(g, 384);
  }

  /** Bit y * w + x of the pixel part is '1' exactly when the dithered pixel is black,
      that is, when the mean at its visit was below 128. */
  lemma DitheredBit(g: Grid, w: nat, y: nat, x: nat)
    requires IsGrid(g, w) && y < |g| && x < w
    ensures |FrameBits(Dithered(g, w))| == 319 + |g| * w && y * w + x < |g| * w
    ensures FrameBits(Dithered(g, w))[319 + y * w + x] == '1' <==> Level(Before(g, w, y, x)[y][x]) < 128
    ensures FrameBits(Dithered(g, w))[319 + y * w + x] == '1' <==> Dithered(g, w)[y][x] == Gray(0)
  {
    FrameBitAt(Dithered(g, w), w, y, x);
    DitheredAt(g, w, y, x);
  }

  /** Character 319 + y * w + x of the bit string is pixel (y, x)'s bit. */
  lemma FrameBitAt(g: Grid, w: nat, y: nat, x: nat)
    requires IsGrid(g, w) && y < |g| && x < w
    ensures |FrameBits(g)| == 319 + |g| * w && 319 + y * w + x < |FrameBits(g)|
    ensures FrameBits(g)[319 + y * w + x] == PixelBit(g[y][x])
  {
    GridBitAt(g, w, y, x);
    var bits := FrameBits(g);
    assert bits == StartBits() + GridBits(g);
    assert bits[319 + y * w + x] == GridBits(g)[y * w + x];
  }

  /** A white raster gives the marker and w * h zero bits: the payload is one
      power-of-two digit followed by zeros (a 384 x 2 white image gives "4" and 271 zeros). */
  lemma WhitePayload(g: Grid, w: nat)
    requires IsGrid(g, w)
    requires forall y, x :: 0 <= y < |g| && 0 <= x < w ==> g[y][x] == Gray(255)
    ensures var n := 318 + |g| * w;
      Payload(Dithered(g, w)) == [Digit([1, 2, 4, 8][n % 4])] + Repeat('0', n / 4)
  {
    WhiteStaysWhite(g, w);
    var d := Dithered(g, w);
    var bits := FrameBits(d);
    GridBitsLength(d, w);
    var n := 318 + |g| * w;
    forall i | 1 <= i < |bits| ensures bits[i] == '0' {
      if i >= 319 {
        var k := i - 319;
        var y, x := SplitIndex(k, w, |g|);
        GridBitAt(d, w, y, x);
      }
    }
    SingleOneValue(bits);
    assert 4 * (n / 4) + n % 4 == n;
    LowerHexOfPow2(n / 4, n % 4);
  }

  /** Index k of a w-wide, h-high raster's bits is pixel (k / w, k % w). */
  lemma SplitIndex(k: nat, w: nat, h: nat) returns (y: nat, x: nat)
    requires k < h * w
    ensures y < h && x < w && k == y * w + x
  {
    y, x := k / w, k % w;
    if y >= h {
      MulMonotone(h, y, w);
    }
  }

  /** A '1' followed only by '0's is the power of two of its length minus one. */
  lemma {:induction false} SingleOneValue(s: string)
    requires |s| >= 1 && s[0] == '1' && forall i :: 1 <= i < |s| ==> s[i] == '0'
    ensures IsBinary(s) && BinaryValue(s) == Pow2(|s| - 1)
    decreases |s|
  {
    if |s| > 1 {
      SingleOneValue(s[..|s| - 1]);
    }
  }
}
