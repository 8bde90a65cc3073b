/** The command frames the encoder writes (printer.py:68-75 and 106-128, main.py:62-71 and
    102-132). Every frame is the hexadecimal text given to `bytes.fromhex`; `FromHex` turns
    it into the bytes that go out. The raster command `1D 76 30 00 30 00` has the layout of
    the ESC/POS "GS v 0" command: mode 0, 0x0030 = 48 bytes (384 dots) per row, then a
    two-byte length field. */
module Framing {
  import opened HexText
  import opened Transport
  import opened Raster
  import opened BitPack

  function Min(a: int, b: int): int { if a < b then a else b }

  /** `enable` (printer.py:68-71, main.py:62-64). */
  const EnableFrames: seq<string> := ["10FF40", "10FFF103"]

  /** `disable_shutdown` (printer.py:73-75, main.py:70-71). */
  const DisableShutdownFrame: string := "10FF120000"

  /** The density command: "high" density 02, padded on the right to 128 bytes. */
  function DensityFrame(): (f: string)
    ensures |f| == 256
  {
    LJust("10FF1000" + "0200", 256, '0')
  }

  /** `print_end` (main.py:66-68): a paper feed padded on the LEFT to 128 bytes, then
      the end-of-job command. */
  function PrintEndFrames(): (fs: seq<string>)
    ensures |fs| == 2 && |fs[0]| == 256
  {
    [RJust("1B4A64", 256, '0'), "10FFF145"]
  }

  const RasterCommand: string := "1D7630003000"

  /** `int(len(imgHexStr) / 96) + 3`: the number written into the length field. */
  function LineCount(payloadLength: nat): nat { payloadLength / 96 + 3 }

  /** `fronthex + endhex`, built by slicing the digits of `hex(n)[2:]`: up to two digits
      are followed by "00"; from three digits on, digits 1-2 come first and digit 0 last,
      behind a "0". */
  function LengthField(n: nat): (f: string)
  {
    var digits := LowerHex(n);
    if |digits| > 2 then digits[1..3] + ("0" + digits[..1]) else digits + "00"
  }

  /** The raster command and its length field, padded on the right to 16 bytes. */
  function HeaderCommand(n: nat): (f: string)
  {
    LJust(RasterCommand + LengthField(n), 32, '0')
  }

  /** The first image write: the header command, then the first 224 payload digits. */
  function HeaderFrame(payload: string): (f: string)
    ensures |f| == 32 + Min(224, |payload|)
    ensures f[..32] == HeaderCommand(LineCount(|payload|))
    ensures f[32..] == payload[..Min(224, |payload|)]
  {
    HeaderCommandShape(LineCount(|payload|));
    HeaderCommand(LineCount(|payload|)) + payload[..Min(224, |payload|)]
  }

  /** `imgHexStr[i : i + 256]`, padded on the right with '0' to 256 digits. */
  function Chunk(payload: string, i: nat): (c: string)
    requires i < |payload|
    ensures |c| == 256
    ensures c[..Min(256, |payload| - i)] == payload[i..Min(i + 256, |payload|)]
    ensures forall k :: Min(256, |payload| - i) <= k < 256 ==> c[k] == '0'
  {
    LJust(payload[i..Min(i + 256, |payload|)], 256, '0')
  }

  /** The chunk writes of `range(i, len(imgHexStr), 256)`. */
  function Chunks(payload: string, i: nat): (cs: seq<string>)
    decreases |payload| - i
  {
    if i >= |payload| then [] else [Chunk(payload, i)] + Chunks(payload, i + 256)
  }

  /** Everything `print_image` writes for one payload, in order. */
  function ImageFrames(payload: string): (fs: seq<string>)
    ensures |fs| >= 2 && fs[0] == DensityFrame() && fs[1] == HeaderFrame(payload)
    ensures fs[2..] == Chunks(payload, 224)
  {
    [DensityFrame(), HeaderFrame(payload)] + Chunks(payload, 224)
  }

  function Concat(fs: seq<string>): string
  {
    if fs == [] then [] else fs[0] + Concat(fs[1..])
  }

  // ---------------------------------------------------------------------------------
  // Bytes of the fixed frames

  /** `enable` sends `10 FF 40`, then `10 FF F1 03`. */
  lemma EnableBytes()
    ensures FromHex(EnableFrames[0]) == Some([0x10, 0xFF, 0x40])
    ensures FromHex(EnableFrames[1]) == Some([0x10, 0xFF, 0xF1, 0x03])
  {
    EnableFirstBytes();
    EnableSecondBytes();
  }

  lemma EnableFirstBytes()
    ensures FromHex(EnableFrames[0]) == Some([0x10, 0xFF, 0x40])
  {
    var a := EnableFrames[0];
    assert IsHexString(a);
    var x := FromHex(a).value;
    assert x[0] == PairValue(a, 0) && x[1] == PairValue(a, 1) && x[2] == PairValue(a, 2);
    assert x == [0x10, 0xFF, 0x40];
  }

  lemma EnableSecondBytes()
    ensures FromHex(EnableFrames[1]) == Some([0x10, 0xFF, 0xF1, 0x03])
  {
    var b := EnableFrames[1];
    assert IsHexString(b);
    var y := FromHex(b).value;
    assert y[0] == PairValue(b, 0) && y[1] == PairValue(b, 1) && y[2] == PairValue(b, 2) && y[3] == PairValue(b, 3);
    assert y == [0x10, 0xFF, 0xF1, 0x03];
  }

  /** `disable_shutdown` sends `10 FF 12 00 00`. */
  lemma DisableShutdownBytes()
    ensures FromHex(DisableShutdownFrame) == Some([0x10, 0xFF, 0x12, 0x00, 0x00])
  {
    var c := DisableShutdownFrame;
    assert IsHexString(c);
    var z := FromHex(c).value;
    assert z[0] == PairValue(c, 0) && z[1] == PairValue(c, 1) && z[2] == PairValue(c, 2);
    assert z[3] == PairValue(c, 3) && z[4] == PairValue(c, 4);
    assert z == [0x10, 0xFF, 0x12, 0x00, 0x00];
  }

  /** The density frame is `10 FF 10 00 02 00` and 122 zero bytes. */
  lemma DensityBytes()
    ensures FromHex(DensityFrame()) == Some([0x10, 0xFF, 0x10, 0x00, 0x02, 0x00] + seq(122, _ => 0))
  {
    var head := "10FF10000200";
    assert DensityFrame() == head + Repeat('0', 2 * 122);
    assert IsHexString(head);
    var h := FromHex(head).value;
    assert h[0] == PairValue(head, 0) && h[1] == PairValue(head, 1) && h[2] == PairValue(head, 2);
    assert h[3] == PairValue(head, 3) && h[4] == PairValue(head, 4) && h[5] == PairValue(head, 5);
    assert h == [0x10, 0xFF, 0x10, 0x00, 0x02, 0x00];
    FromHexZeros(122);
    FromHexAppend(head, Repeat('0', 2 * 122));
  }

  /** `print_end` sends 125 zero bytes then `1B 4A 64`, then `10 FF F1 45`. */
  lemma PrintEndBytes()
    ensures FromHex(PrintEndFrames()[0]) == Some(seq(125, _ => 0) + [0x1B, 0x4A, 0x64])
    ensures FromHex(PrintEndFrames()[1]) == Some([0x10, 0xFF, 0xF1, 0x45])
  {
    FeedBytes();
    var end := "10FFF145";
    assert PrintEndFrames()[1] == end;
    assert IsHexString(end);
    var e := FromHex(end).value;
    assert e[0] == PairValue(end, 0) && e[1] == PairValue(end, 1) && e[2] == PairValue(end, 2) && e[3] == PairValue(end, 3);
    assert e == [0x10, 0xFF, 0xF1, 0x45];
  }

  lemma FeedBytes()
    ensures FromHex(RJust("1B4A64", 256, '0')) == Some(seq(125, _ => 0) + [0x1B, 0x4A, 0x64])
  {
    var feed := "1B4A64";
    var zeros := Repeat('0', 2 * 125);
    assert RJust(feed, 256, '0') == zeros + feed;
    assert IsHexString(feed);
    var f := FromHex(feed).value;
    assert f[0] == PairValue(feed, 0) && f[1] == PairValue(feed, 1) && f[2] == PairValue(feed, 2);
    assert f == [0x1B, 0x4A, 0x64];
    FromHexZeros(125);
    assert IsHexString(zeros) by {
      assert HexValue('0') == Some(0);
    }
    FromHexAppend(zeros, feed);
  }

  // ---------------------------------------------------------------------------------
  // The length field

  /** The two length bytes the header carries, case by case. A lone hexadecimal digit
      lands in the HIGH nibble of the first byte; two and three digits give the
      little-endian value; from four digits on only the three leading digits count, so
      each further digit is dropped as the lowest one is. */
  function FieldBytes(n: nat): (b: seq<Byte>)
    ensures |b| == 2
    decreases n
  {
    if n < 16 then [16 * n, 0]
    else if n < 256 then [n, 0]
    else if n < 4096 then [n % 256, n / 256]
    else FieldBytes(n / 16)
  }

  /** For a count of k >= 3 hexadecimal digits the field holds digits 1-2 as the first
      byte and digit 0 as the second: [(n div 16^(k-3)) mod 256, n div 16^(k-1)]. */
  lemma {:induction false} FieldBytesLeading(n: nat, k: nat)
    requires k >= 3 && Pow2(4 * (k - 1)) <= n < Pow2(4 * k)
    ensures FieldBytes(n) == [(n / Pow2(4 * (k - 3))) % 256, n / Pow2(4 * (k - 1))]
    decreases k
  {
    if k == 3 {
      Pow2Values();
    } else {
      Pow2Values();
      Pow2Monotone(12, 4 * (k - 1));
      assert n >= 4096;
      var m := n / 16;
      Pow2Nibble(4 * (k - 2));
      Pow2Nibble(4 * (k - 1));
      assert Pow2(4 * (k - 2)) <= m < Pow2(4 * (k - 1));
      FieldBytesLeading(m, k - 1);
      Pow2Nibble(4 * (k - 4));
      Pow2Nibble(4 * (k - 2));
      DivDiv(n, 16, Pow2(4 * (k - 4)));
      DivDiv(n, 16, Pow2(4 * (k - 2)));
    }
  }

  lemma Pow2Values()
    ensures Pow2(0) == 1 && Pow2(4) == 16 && Pow2(8) == 256 && Pow2(12) == 4096
  {
    Pow2Nibble(0);
    Pow2Nibble(4);
    Pow2Nibble(8);
  }

  /** Dividing twice is dividing by the product. */
  lemma DivDiv(n: nat, a: nat, b: nat)
    requires a > 0 && b > 0
    ensures n / a / b == n / (a * b)
  {
    var q, r := n / a, n % a;
    var q2, r2 := q / b, q % b;
    var ab := a * b;
    var s := a * r2 + r;
    Regroup(n, a, b, q, r, q2, r2);
    MulBelow(a, r2, b);
    DivUnique(n, ab, q2, s);
  }

  lemma Regroup(n: nat, a: nat, b: nat, q: nat, r: nat, q2: nat, r2: nat)
    requires n == a * q + r && q == b * q2 + r2
    ensures n == (a * b) * q2 + (a * r2 + r)
  {
    calc {
      a * q;
      a * (b * q2 + r2);
      a * (b * q2) + a * r2;
      (a * b) * q2 + a * r2;
    }
  }

  /** With r2 < b, a * r2 + r stays below a * b whenever r < a. */
  lemma MulBelow(a: nat, r2: nat, b: nat)
    requires r2 < b
    ensures a * r2 + a <= a * b
  {
    calc {
      a * r2 + a;
      a * (r2 + 1);
    <= { MulMonotone(r2 + 1, b, a); }
      a * b;
    }
  }

  lemma DivUnique(n: nat, d: nat, q: nat, r: nat)
    requires d > 0 && n == d * q + r && r < d
    ensures n / d == q
  {
    var q0, r0 := n / d, n % d;
    assert d * q0 + r0 == d * q + r;
    if q0 > q {
      MulMonotone(q + 1, q0, d);
    } else if q0 < q {
      MulMonotone(q0 + 1, q, d);
    }
  }

  const CommandBytes: seq<Byte> := [0x1D, 0x76, 0x30, 0x00, 0x30, 0x00]

  /** The header command is 16 whole bytes of hexadecimal for every count. */
  lemma HeaderCommandShape(n: nat)
    ensures |LengthField(n)| == if n < 16 then 3 else 4
    ensures |HeaderCommand(n)| == 32 && IsHexString(HeaderCommand(n))
  {
    var digits := LowerHex(n);
    var f := LengthField(n);
    LowerDigitsAreHex(digits);
    assert IsHexString(f) by {
      assert HexValue('0') == Some(0);
      if |digits| > 2 {
        assert f == [digits[1], digits[2], '0', digits[0]];
      } else {
        assert f == digits + ['0', '0'];
      }
    }
    var h := HeaderCommand(n);
    forall i | 0 <= i < 32 ensures IsHexDigit(h[i]) {
      if i < 12 {
        assert h[i] == RasterCommand[i];
      } else if i < 12 + |f| {
        assert h[i] == f[i - 12];
      } else {
        assert HexValue('0') == Some(0);
      }
    }
  }

  /** The digits `hex` prints for numbers of up to four digits. */
  lemma LowerHexDigits(n: nat)
    requires n < 65536
    ensures n < 16 ==> LowerHex(n) == [Digit(n)]
    ensures 16 <= n < 256 ==> LowerHex(n) == [Digit(n / 16), Digit(n % 16)]
    ensures 256 <= n < 4096 ==> LowerHex(n) == [Digit(n / 256), Digit(n / 16 % 16), Digit(n % 16)]
    ensures 4096 <= n ==> LowerHex(n) == [Digit(n / 4096), Digit(n / 256 % 16), Digit(n / 16 % 16), Digit(n % 16)]
  {
    if n >= 16 {
      LowerHexDigits(n / 16);
      assert n / 16 / 16 == n / 256;
      assert n / 16 / 256 == n / 4096;
      assert n / 256 % 16 == n / 16 / 16 % 16;
    }
  }

  /** The header command decodes to the raster command, the length bytes of `FieldBytes`,
      and eight zero bytes, for every count. */
  lemma {:induction false} HeaderCommandBytes(n: nat)
    ensures FromHex(HeaderCommand(n)) == Some(CommandBytes + FieldBytes(n) + seq(8, _ => 0))
    decreases n
  {
    if n < 65536 {
      HeaderCommandShape(n);
      var b := FromHex(HeaderCommand(n)).value;
      HeaderPrefixBytes(n);
      HeaderFieldBytes(n);
      assert b == CommandBytes + FieldBytes(n) + seq(8, _ => 0);
    } else {
      LengthFieldShift(n);
      HeaderCommandBytes(n / 16);
    }
  }

  /** From four digits on, the lowest digit of the count does not reach the field. */
  lemma LengthFieldShift(n: nat)
    requires n >= 4096
    ensures LengthField(n) == LengthField(n / 16)
  {
    var m := n / 16;
    var low := LowerHex(m);
    assert LowerHex(n) == low + [Digit(n % 16)];
    assert |LowerHex(m / 16)| >= 2;
    assert |low| >= 3;
    assert LowerHex(n)[..3] == low[..3];
  }

  /** Bytes 0-5 are the raster command, bytes 8-15 the padding. */
  lemma HeaderPrefixBytes(n: nat)
    ensures FromHex(HeaderCommand(n)).Some?
    ensures var b := FromHex(HeaderCommand(n)).value;
      |b| == 16 && b[..6] == CommandBytes && forall k :: 8 <= k < 16 ==> b[k] == 0
  {
    HeaderCommandShape(n);
    var h := HeaderCommand(n);
    var f := LengthField(n);
    var b := FromHex(h).value;
    assert h[..12] == RasterCommand;
    assert h[0] == '1' && h[1] == 'D' && h[2] == '7' && h[3] == '6' && h[4] == '3' && h[5] == '0';
    assert h[6] == '0' && h[7] == '0' && h[8] == '3' && h[9] == '0' && h[10] == '0' && h[11] == '0';
    assert b[0] == PairValue(h, 0) && b[1] == PairValue(h, 1) && b[2] == PairValue(h, 2);
    assert b[3] == PairValue(h, 3) && b[4] == PairValue(h, 4) && b[5] == PairValue(h, 5);
    assert b[..6] == CommandBytes;
    assert HexValue('0') == Some(0);
    forall k | 8 <= k < 16 ensures b[k] == 0 {
      assert h[2 * k] == '0' && h[2 * k + 1] == '0';
      assert b[k] == PairValue(h, k);
    }
  }

  /** Bytes 6 and 7 are the length field of `FieldBytes`. */
  lemma HeaderFieldBytes(n: nat)
    requires n < 65536
    ensures FromHex(HeaderCommand(n)).Some?
    ensures var b := FromHex(HeaderCommand(n)).value;
      |b| == 16 && b[6..8] == FieldBytes(n)
  {
    HeaderCommandShape(n);
    var d := FieldDigits(n);
    FieldDigitValues(n, d);
    MiddleBytes(HeaderCommand(n));
  }

  lemma MiddleBytes(h: string)
    requires |h| == 32 && IsHexString(h)
    ensures FromHex(h).Some?
    ensures var d := h[12..16];
      IsHexDigit(d[0]) && IsHexDigit(d[1]) && IsHexDigit(d[2]) && IsHexDigit(d[3]) &&
      FromHex(h).value[6..8] == PairsOf(d)
  {
    var b := FromHex(h).value;
    assert b[6] == PairValue(h, 6) && b[7] == PairValue(h, 7);
  }

  function PairsOf(d: string): seq<int>
    requires |d| == 4 && IsHexDigit(d[0]) && IsHexDigit(d[1]) && IsHexDigit(d[2]) && IsHexDigit(d[3])
  {
    [16 * HexValue(d[0]).value + HexValue(d[1]).value, 16 * HexValue(d[2]).value + HexValue(d[3]).value]
  }

  lemma FieldDigitValues(n: nat, d: string)
    requires n < 65536 && |d| == 4
    requires n < 16 ==> d[0] == Digit(n) && d[1] == '0' && d[2] == '0' && d[3] == '0'
    requires 16 <= n < 256 ==> d[0] == Digit(n / 16) && d[1] == Digit(n % 16) && d[2] == '0' && d[3] == '0'
    requires 256 <= n < 4096 ==> d[0] == Digit(n / 16 % 16) && d[1] == Digit(n % 16) && d[2] == '0' && d[3] == Digit(n / 256)
    requires 4096 <= n ==> d[0] == Digit(n / 256 % 16) && d[1] == Digit(n / 16 % 16) && d[2] == '0' && d[3] == Digit(n / 4096)
    ensures IsHexDigit(d[0]) && IsHexDigit(d[1]) && IsHexDigit(d[2]) && IsHexDigit(d[3])
    ensures PairsOf(d) == FieldBytes(n)
  {
    if n < 16 {
      OneDigitField(n, d);
    } else if n < 256 {
      TwoDigitField(n, d);
    } else if n < 4096 {
      ThreeDigitField(n, d);
    } else {
      FourDigitField(n, d);
    }
  }

  lemma OneDigitField(n: nat, d: string)
    requires n < 16 && |d| == 4
    requires d[0] == Digit(n) && d[1] == '0' && d[2] == '0' && d[3] == '0'
    ensures IsHexDigit(d[0]) && IsHexDigit(d[1]) && IsHexDigit(d[2]) && IsHexDigit(d[3])
    ensures PairsOf(d) == [16 * n, 0]
  {
    assert HexValue('0') == Some(0);
    DigitValue(n);
  }

  lemma TwoDigitField(n: nat, d: string)
    requires 16 <= n < 256 && |d| == 4
    requires d[0] == Digit(n / 16) && d[1] == Digit(n % 16) && d[2] == '0' && d[3] == '0'
    ensures IsHexDigit(d[0]) && IsHexDigit(d[1]) && IsHexDigit(d[2]) && IsHexDigit(d[3])
    ensures PairsOf(d) == [n, 0]
  {
    assert HexValue('0') == Some(0);
    DigitValue(n / 16);
    DigitValue(n % 16);
  }

  lemma ThreeDigitField(n: nat, d: string)
    requires 256 <= n < 4096 && |d| == 4
    requires d[0] == Digit(n / 16 % 16) && d[1] == Digit(n % 16) && d[2] == '0' && d[3] == Digit(n / 256)
    ensures IsHexDigit(d[0]) && IsHexDigit(d[1]) && IsHexDigit(d[2]) && IsHexDigit(d[3])
    ensures PairsOf(d) == [n % 256, n / 256]
  {
    assert HexValue('0') == Some(0);
    DigitValue(n / 256);
    DigitValue(n / 16 % 16);
    DigitValue(n % 16);
    NibblePair(n);
  }

  lemma FourDigitField(n: nat, d: string)
    requires 4096 <= n < 65536 && |d| == 4
    requires d[0] == Digit(n / 256 % 16) && d[1] == Digit(n / 16 % 16) && d[2] == '0' && d[3] == Digit(n / 4096)
    ensures IsHexDigit(d[0]) && IsHexDigit(d[1]) && IsHexDigit(d[2]) && IsHexDigit(d[3])
    ensures PairsOf(d) == [n / 16 % 256, n / 4096]
  {
    assert HexValue('0') == Some(0);
    DigitValue(n / 4096);
    DigitValue(n / 256 % 16);
    DigitValue(n / 16 % 16);
    NibblePair(n / 16);
    assert n / 16 / 16 == n / 256;
  }

  /** Two consecutive nibbles of m make its low byte. */
  lemma NibblePair(m: nat)
    ensures 16 * (m / 16 % 16) + m % 16 == m % 256
  {
    var q, r := m / 256, m % 256;
    assert m == 256 * q + r;
    assert m / 16 == 16 * q + r / 16;
    assert m % 16 == r % 16;
  }

  /** Characters 12-15 of the header command, case by case. */
  lemma FieldDigits(n: nat) returns (d: string)
    requires n < 65536
    ensures |HeaderCommand(n)| == 32 && d == HeaderCommand(n)[12..16]
    ensures n < 16 ==> d[0] == Digit(n) && d[1] == '0' && d[2] == '0' && d[3] == '0'
    ensures 16 <= n < 256 ==> d[0] == Digit(n / 16) && d[1] == Digit(n % 16) && d[2] == '0' && d[3] == '0'
    ensures 256 <= n < 4096 ==> d[0] == Digit(n / 16 % 16) && d[1] == Digit(n % 16) && d[2] == '0' && d[3] == Digit(n / 256)
    ensures 4096 <= n ==> d[0] == Digit(n / 256 % 16) && d[1] == Digit(n / 16 % 16) && d[2] == '0' && d[3] == Digit(n / 4096)
  {
    LowerHexDigits(n);
    HeaderCommandShape(n);
    var h := HeaderCommand(n);
    var f := LengthField(n);
    assert h[12..12 + |f|] == f;
    d := h[12..16];
    if n < 16 {
      assert h[15] == '0';
    }
  }

  // ---------------------------------------------------------------------------------
  // Chunking

  /** No chunk write when the payload ends at or before offset i; otherwise one per
      started block of 256 digits. */
  lemma {:induction false} ChunkCount(p: string, i: nat)
    ensures |Chunks(p, i)| == if i < |p| then (|p| - i + 255) / 256 else 0
    decreases |p| - i
  {
    if i < |p| {
      ChunkCount(p, i + 256);
    }
  }

  /** Chunk k is cut at offset i + 256 k. */
  lemma {:induction false} ChunkAt(p: string, i: nat, k: nat)
    requires k < |Chunks(p, i)|
    ensures i + 256 * k < |p| && Chunks(p, i)[k] == Chunk(p, i + 256 * k)
    decreases k
  {
    if k > 0 {
      ChunkAt(p, i + 256, k - 1);
    }
  }

  /** Every chunk but the last is exactly the payload's next 256 digits: only the last
      one is padded. */
  lemma ChunkUnpadded(p: string, i: nat, k: nat)
    requires k + 1 < |Chunks(p, i)|
    ensures i + 256 * k + 256 < |p| && Chunks(p, i)[k] == p[i + 256 * k..i + 256 * k + 256]
  {
    ChunkAt(p, i, k + 1);
    ChunkAt(p, i, k);
    var c := Chunks(p, i)[k];
    assert c[..256] == p[i + 256 * k..i + 256 * k + 256];
  }

  /** Concatenating the chunks gives back the payload from offset i, followed by fewer
      than 256 padding zeros. */
  lemma {:induction false} ChunksConcat(p: string, i: nat)
    requires i <= |p|
    ensures var cs := Chunks(p, i);
      256 * |cs| >= |p| - i && 256 * |cs| - (|p| - i) < 256 &&
      Concat(cs) == p[i..] + Repeat('0', 256 * |cs| - (|p| - i))
    decreases |p| - i
  {
    var cs := Chunks(p, i);
    if i == |p| {
      assert cs == [];
      assert p[i..] + Repeat('0', 0) == [];
    } else {
      var c := Chunk(p, i);
      assert cs == [c] + Chunks(p, i + 256) && cs[1..] == Chunks(p, i + 256);
      if i + 256 <= |p| {
        ChunksConcat(p, i + 256);
        var rest := Chunks(p, i + 256);
        var pad := 256 * |rest| - (|p| - i - 256);
        assert c == p[i..i + 256];
        assert Concat(cs) == c + Concat(rest);
        assert p[i..] == p[i..i + 256] + p[i + 256..];
        assert Concat(cs) == p[i..] + Repeat('0', pad);
      } else {
        assert Chunks(p, i + 256) == [];
        assert Concat(cs) == c + [];
        assert c == p[i..] + Repeat('0', 256 - (|p| - i));
      }
    }
  }

  /** Taking the 224 payload digits after the header command and the chunks without
      their padding gives back the whole payload. */
  lemma PayloadRecovered(p: string)
    ensures var fs := ImageFrames(p);
      var body := fs[1][32..] + Concat(fs[2..]);
      |body| >= |p| && |body| - |p| < 256 && body == p + Repeat('0', |body| - |p|)
    ensures |p| <= 224 ==> ImageFrames(p) == [DensityFrame(), HeaderFrame(p)]
  {
    var fs := ImageFrames(p);
    if |p| <= 224 {
      assert Chunks(p, 224) == [];
      assert fs[1][32..] == p;
      assert Concat(fs[2..]) == [];
      assert fs == [DensityFrame(), HeaderFrame(p)];
    } else {
      ChunksConcat(p, 224);
      assert fs[1][32..] == p[..224];
      assert p == p[..224] + p[224..];
    }
  }

  /** A string of hexadecimal digits padded with '0' is still all digits. */
  lemma PaddedIsHex(s: string, n: nat)
    requires IsHexString(s)
    ensures IsHexString(LJust(s, n, '0'))
  {
    assert HexValue('0') == Some(0);
    var r := LJust(s, n, '0');
    forall i | 0 <= i < |r| ensures IsHexDigit(r[i]) {
      if i < |s| {
        assert r[i] == r[..|s|][i];
      }
    }
  }

  /** Every frame of an image decodes as bytes exactly when the header frame holds
      whole bytes: when the payload reaches past offset 224 or has an even length.
      Otherwise `bytes.fromhex` rejects the header frame. */
  lemma FramesDecode(p: string)
    requires IsHexString(p)
    ensures (forall k :: 0 <= k < |ImageFrames(p)| ==> FromHex(ImageFrames(p)[k]).Some?) <==> (|p| >= 224 || |p| % 2 == 0)
  {
    var fs := ImageFrames(p);
    DensityBytes();
    HeaderFrameDecodes(p);
    forall k | 2 <= k < |fs| ensures FromHex(fs[k]).Some? {
      ChunkDecodes(p, 224, k - 2);
    }
  }

  lemma HeaderFrameDecodes(p: string)
    requires IsHexString(p)
    ensures FromHex(HeaderFrame(p)).Some? <==> Min(224, |p|) % 2 == 0
  {
    var m := Min(224, |p|);
    HeaderCommandShape(LineCount(|p|));
    var header := HeaderCommand(LineCount(|p|));
    var f := HeaderFrame(p);
    assert f == header + p[..m];
    forall i | 0 <= i < |f| ensures IsHexDigit(f[i]) {
      if i < 32 {
        assert f[i] == header[i];
      } else {
        assert f[i] == p[i - 32];
      }
    }
  }

  lemma ChunkDecodes(p: string, i: nat, k: nat)
    requires IsHexString(p) && k < |Chunks(p, i)|
    ensures FromHex(Chunks(p, i)[k]).Some?
  {
    ChunkAt(p, i, k);
    var j := i + 256 * k;
    var piece := p[j..Min(j + 256, |p|)];
    assert IsHexString(piece) by {
      forall t | 0 <= t < |piece| ensures IsHexDigit(piece[t]) {
        assert piece[t] == p[j + t];
      }
    }
    PaddedIsHex(piece, 256);
  }

  /** At the printer's 384-dot width every frame decodes, and the header's length field
      carries the image height plus three (in the high nibble when that is below 16). */
  lemma Frames384(g: Grid)
    requires IsGrid(g, 384)
    ensures var p := Payload(g);
      LineCount(|p|) == |g| + 3 &&
      (forall k :: 0 <= k < |ImageFrames(p)| ==> FromHex(ImageFrames(p)[k]).Some?)
    ensures FromHex(HeaderCommand(LineCount(|Payload(g)|))) == Some(CommandBytes + FieldBytes(|g| + 3) + seq(8, _ => 0))
  {
    var p := Payload(g);
    PayloadShape(g, 384);
    PayloadLength384(g);
    assert LineCount(|p|) == |g| + 3;
    FramesDecode(p);
    HeaderCommandBytes(|g| + 3);
  }

  // ---------------------------------------------------------------------------------
  // Writing an image

  /** The writes of `print_image` after the payload is computed (printer.py:111-128,
      main.py:111-132): density, header, then the chunk loop. */
  method SendImage(device: Device, payload: string)
    modifies device
    ensures device.log == old(device.log) + Writes(ImageFrames(payload))
  {
    ghost var sent: seq<string> := [];
    device.Write(DensityFrame());
    LogGrows(old(device.log), sent, DensityFrame());
    sent := sent + [DensityFrame()];
    device.Write(HeaderFrame(payload));
    LogGrows(old(device.log), sent, HeaderFrame(payload));
    sent := sent + [HeaderFrame(payload)];
    var i := 224;
    while i < |payload|
      invariant device.log == old(device.log) + Writes(sent)
      invariant sent + Chunks(payload, i) == ImageFrames(payload)
      decreases |payload| - i
    {
      var chunk := payload[i..Min(i + 256, |payload|)];
      if |chunk| < 256 {
        chunk := LJust(chunk, 256, '0');
      }
      ChunkNext(payload, i, chunk, sent);
      device.Write(chunk);
      LogGrows(old(device.log), sent, chunk);
      sent := sent + [chunk];
      i := i + 256;
    }
    assert sent == ImageFrames(payload);
  }

  /** Writing one more frame extends the log by that frame's write. */
  lemma LogGrows(log: seq<Call>, sent: seq<string>, f: string)
    ensures log + Writes(sent) + [Call.Write(f)] == log + Writes(sent + [f])
  {
    WritesAppend(sent, [f]);
  }

  /** One turn of the chunk loop sends `Chunk(payload, i)` and leaves the chunks from
      i + 256. */
  lemma ChunkNext(p: string, i: nat, chunk: string, sent: seq<string>)
    requires i < |p|
    requires chunk == var c := p[i..Min(i + 256, |p|)]; if |c| < 256 then LJust(c, 256, '0') else c
    ensures sent + Chunks(p, i) == (sent + [chunk]) + Chunks(p, i + 256)
  {
    assert chunk == Chunk(p, i);
    assert Chunks(p, i) == [chunk] + Chunks(p, i + 256);
  }
}
