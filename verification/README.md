# Thermal printer encoder, modelled in Dafny

This project models the encoder behind a small 384-dot thermal printer driver
(the DingDang D1 / "Luck" family of printers). The driver turns an RGB image,
or a text first drawn onto a white canvas, into one hexadecimal string. It does
this in three steps:

- a brightness/contrast pass;
- Floyd–Steinberg error diffusion to black and white;
- one bit per pixel behind a fixed 319-bit start marker, with the bit string read
  as a binary number and printed in lowercase hexadecimal.

It then cuts that string into command frames and writes them to the device:

- a density frame;
- a `GS v 0` raster header whose two-byte length field is built by slicing hex
  digits, followed by the first 224 payload digits;
- 256-digit chunks, the last padded with `'0'`.

Around this sit the fixed `enable`, `disable_shutdown` and `print_end` frames,
and the line wrapping of `print_text`.

Modules:

- `HexText`: the Python conversions the encoder relies on, as values.
  - `str.ljust` and `str.rjust`.
  - `hex(n)[2:]`, `int(s, 2)` and `int(s, 16)`.
  - `bytes.fromhex`, with `None` where Python raises.
- `Raster`: the adjustment and the diffusion as pure functions on a grid of
  pixels. The diffusion is a fold over the pixels in row-major order, and each
  visit reads the already-nudged values.
- `BitPack`: the bit string and the hexadecimal payload.
- `DitherPasses`: `applyDither` as the source runs it. The passes update a
  two-dimensional array in place, and each pass is proved equal to its function.
- `Transport`: the device, as an append-only log of open/write/close calls.
- `Framing`: the frames as strings and the bytes they decode to. It also holds
  `SendImage`, the write loop of `print_image`.
- `TextWrap`: the wrap loop of `print_text`, as a method proved equal to a left
  fold, and the properties of that fold.
- `Printing`: the bodies of `print_text` and `print_image`. printer.py and
  main.py take the same steps in them. The differences: main.py awaits each
  write, printer.py reads the brightness from an attribute spelled `brightnes`,
  and main.py takes `applyDither` from a separate module `dither`.
- `SerialPrinter` and `LuckPrinterModel`: the two printer classes, `Printer`
  (printer.py) and `LuckPrinter` (main.py).

Python's `int(x)` on a float truncates toward zero, which is `Raster.TruncDiv`.
Widths in the wrap loop are counted in half-units, so 0.5 and 1 become 1 and 2
and the limit `width // font_size - 2` is doubled. The comparison is then exact.

The length field follows the code, not its comment. The comment says the field
is little-endian. That holds for 2 and 3 hex digits. With a single digit (a
count below 16) the digit lands in the high nibble: a count of 5 is written
`50 00`, not `05 00`. From 4 digits on only the three leading digits are kept, so
the lowest digits are dropped. `FieldBytes` and `HeaderCommandBytes` state each case,
for every count. Image payloads at width 384 always give a
count of at least 3, so the single-digit case is reached only by images of at
most 12 rows.

## Model

| member | source | states |
|---|---|---|
| HexText.Repeat | printer.py:53 | Python `c * n`: n copies of c |
| HexText.Count | printer.py:96 | definition of Python `s.count(c)`, at most the length of s; additive over concatenation by `CountAppend` |
| HexText.LJust | printer.py:111 | Python `ljust`: the string, then fill characters up to the width; unchanged when already that long |
| HexText.RJust | main.py:67 | Python `rjust`: fill characters in front of the string up to the width |
| HexText.LowerHex | printer.py:55 | `hex(n)[2:]`: lowercase digits, no leading zero for n > 0, a single digit exactly when n < 16; read back by `LowerHexRoundTrip` |
| HexText.LowerHexRoundTrip | printer.py:55 | the digits `hex(n)[2:]` prints are hexadecimal and read back as n |
| HexText.LowerHexLength | printer.py:55 | a number of exactly k nibbles prints as exactly k digits |
| HexText.LowerHexOfPow2 | printer.py:55 | 2^(4k+r) prints as the digit 2^r followed by k zeros |
| HexText.BinaryValue | printer.py:55 | definition of `int(s, 2)`, most significant bit first; bounded by `BinaryValueBounds` |
| HexText.BinaryValueBounds | printer.py:53-55 | a bit string of length L starting with '1' has a value in [2^(L-1), 2^L) |
| HexText.FromHex | printer.py:122 | `bytes.fromhex`: `None` for an odd number of digits or a non-digit, else |s|/2 bytes, byte k being digits 2k and 2k+1, high nibble first |
| HexText.FromHexAppend | printer.py:122 | decoding a concatenation decodes each part, when the first has an even number of digits |
| HexText.FromHexZeros | printer.py:126-128 | 2n '0' digits decode to n zero bytes |
| Raster.AdjustChannel | printer.py:21-23 | shift by (brightness − 0.5)·256, stretch about 128 by contrast, clamp and truncate: the result is always in [0, 255] |
| Raster.AdjustFirst | printer.py:18-24 | definition: the first n of the channels r, g, b adjusted in turn, the rest unchanged |
| Raster.AdjustPixel | printer.py:18-24 | definition: all three channels adjusted |
| Raster.Adjusted | printer.py:16-24 | the adjustment pass: same shape, every pixel `AdjustPixel` of the original; range stated by `AdjustedInRange` |
| Raster.TruncDiv | printer.py:9-13 | Python `int(a / d)`: magnitude is abs(a)/d rounded down, sign that of a |
| Raster.Level | printer.py:8-9 | definition of `getValue`: the truncated mean of the three channels |
| Raster.Threshold | printer.py:33 | the new level is 0 or 255, and 255 exactly when the level is at least 128 |
| Raster.Error | printer.py:35 | definition: the level minus the new level |
| Raster.Share | printer.py:37-43 | definition of `int(error * k / 16)`; sign and size stated by `SharesWithinError` |
| Raster.Nudge | printer.py:12-14 | definition of `nudgeValue`: the same amount added to each channel, unclamped |
| Raster.VisitedPixel | printer.py:29-43 | definition of one pixel after the visit at (y, x); summarised by `VisitEffect` |
| Raster.Visit | printer.py:29-43 | the raster after one visit: same shape, each pixel `VisitedPixel`; effect stated by `VisitEffect` |
| Raster.RowTo | printer.py:28-43 | the raster after visiting the first x pixels of row y, same shape; stated by `RowToKeeps` |
| Raster.RowsTo | printer.py:26-43 | the raster after visiting whole rows 0..n−1, same shape; stated by `RowsToKeeps` |
| Raster.Before | printer.py:26-43 | the raster as the traversal reaches (y, x), same shape |
| Raster.Dithered | printer.py:26-43 | the raster after the whole diffusion pass, same shape; stated by `DitheredAt` and `DitheredIsMonochrome` |
| Raster.AdjustIdentity | printer.py:21-23 | brightness 0.5 and contrast 1 leave a channel in [0, 255] unchanged |
| Raster.AdjustedInRange | printer.py:18-24 | after the adjustment pass every channel of every pixel is in [0, 255] |
| Raster.AdjustedIdentity | printer.py:16-24 | brightness 0.5 and contrast 1 leave a byte-valued image unchanged |
| Raster.VisitEffect | printer.py:27-43 | a visit sets the pixel to its black/white decision, leaves earlier pixels and non-neighbours alone, and nudges each existing neighbour by int(error·k/16) with k = 7, 3, 5, 1 |
| Raster.RowToKeeps | printer.py:28-43 | later visits in a row never change pixels the traversal has passed |
| Raster.RowsToKeeps | printer.py:26-43 | once a row is traversed, later rows never change it |
| Raster.DitheredAt | printer.py:26-43 | each final pixel is the threshold of its level at the moment it was visited |
| Raster.DitheredIsMonochrome | printer.py:26-43 | after diffusion every pixel is pure black or pure white |
| Raster.SharesWithinError | printer.py:36-43 | the shares passed on have the error's sign and together never exceed its magnitude |
| Raster.VisitShiftsEvenly | printer.py:12-14 | a visit changes every pixel except the visited one by the same amount on all three channels |
| Raster.VisitSpreadsAtMostError | printer.py:35-43 | per visit the total change to the neighbours (each channel alike) is at most the error |
| Raster.WhiteStaysWhite | printer.py:26-43 | a white image dithers to itself |
| BitPack.RowBits | printer.py:46-51 | one character per pixel of a row, character j being `PixelBit` of pixel j |
| BitPack.GridBits | printer.py:45-51 | definition: the rows' characters, top to bottom; stated by `GridBitsLength` and `GridBitAt` |
| BitPack.FrameBits | printer.py:53 | the marker followed by the pixel characters: a binary string |
| BitPack.Payload | printer.py:55 | definition: `hex(int(bits, 2))[2:]` of the frame bits; stated by `PayloadShape` |
| BitPack.PixelBit | printer.py:47-51 | a pixel gives '1' exactly when its channel sum is at most 600 |
| BitPack.GridBitsLength | printer.py:44-51 | a w-wide image gives w·h characters |
| BitPack.GridBitAt | printer.py:44-51 | pixel (y, x) is character y·w + x: row-major order |
| BitPack.StartBits | printer.py:53 | the marker is '1' followed by 318 '0's |
| BitPack.PayloadShape | printer.py:44-55 | the payload is ceil((319 + w·h)/4) lowercase digits, the first non-zero, and reads back as the bit string's value |
| BitPack.PayloadLength384 | printer.py:53-55 | at width 384 the payload has 80 + 96·h digits |
| BitPack.FrameBitAt | printer.py:44-53 | character 319 + y·w + x of the bit string is pixel (y, x)'s bit |
| BitPack.DitheredBit | printer.py:26-53 | that bit is '1' exactly when the level at the visit was below 128, and exactly when the dithered pixel is black |
| BitPack.WhitePayload | printer.py:26-55 | a white image gives one power-of-two digit followed by zeros |
| BitPack.SingleOneValue | printer.py:53-55 | '1' followed only by '0's is 2 to the number of zeros |
| DitherPasses.AdjustPass | printer.py:16-24 | the in-place pass leaves the array holding the adjusted image, all channels in [0, 255] |
| DitherPasses.DitherPass | printer.py:26-43 | the in-place pass leaves the array holding the diffused image, every pixel black or white |
| DitherPasses.VisitPixel | printer.py:29-43 | one loop body, with the guarded writes of `setValue` and `nudgeValue`, performs exactly one visit |
| DitherPasses.PackBits | printer.py:44-53 | the packing loop returns the marker followed by the bits of the image |
| DitherPasses.ApplyDither | printer.py:7-55 | `applyDither` leaves the array dithered and returns the payload of the adjusted, dithered image |
| Transport.Device.constructor | main.py:31-34 | a new device has an empty log |
| Transport.Device.Open | main.py:35-37 | opening appends an open call |
| Transport.Device.Write | main.py:40-41 | a write appends that frame's write call |
| Transport.Device.Close | main.py:38-39 | closing appends a close call |
| Framing.LineCount | printer.py:112 | definition of `int(len / 96) + 3`; equal to h + 3 at width 384 by `Frames384` |
| Framing.LengthField | printer.py:112-120 | definition of `fronthex + endhex` by slicing `hex` digits; its length by `HeaderCommandShape`, its bytes by `HeaderCommandBytes` |
| Framing.HeaderCommand | printer.py:122 | definition: raster command plus length field, `ljust` to 32 digits; bytes stated by `HeaderCommandBytes` |
| Framing.FieldBytes | printer.py:112-122 | the two length bytes for every count, as an independent arithmetic definition: [16·n, 0] for one digit, [n, 0] for two, [n mod 256, n div 256] for three, and the bytes of n div 16 from four digits on; closed form by `FieldBytesLeading` |
| Framing.FieldBytesLeading | printer.py:112-120 | a count of k ≥ 3 hex digits gives the bytes [(n div 16^(k−3)) mod 256, n div 16^(k−1)]: digits 1-2, then digit 0 |
| Framing.LengthFieldShift | printer.py:112-118 | from four digits on, the count and the count without its lowest digit give the same length field |
| Framing.Chunks | printer.py:124-128 | definition of the chunk writes from offset i; stated by `ChunkCount`, `ChunkAt`, `ChunkUnpadded`, `ChunksConcat` |
| Framing.DensityFrame | printer.py:111 | the density frame is 256 digits |
| Framing.PrintEndFrames | main.py:66-68 | two frames, the first 256 digits |
| Framing.HeaderFrame | printer.py:122 | the header frame is `HeaderCommand` of the payload's line count followed by the first min(224, len) payload digits |
| Framing.Chunk | printer.py:125-127 | a chunk is 256 digits: the payload slice, then '0' padding |
| Framing.ImageFrames | printer.py:111-128 | the density frame, the header frame, then the chunks from digit 224 |
| Framing.EnableBytes | printer.py:68-71 | `enable` sends bytes 10 FF 40, then 10 FF F1 03 |
| Framing.DisableShutdownBytes | printer.py:73-75 | `disable_shutdown` sends 10 FF 12 00 00 |
| Framing.DensityBytes | printer.py:110-111 | the density frame is 10 FF 10 00 02 00 and 122 zero bytes |
| Framing.PrintEndBytes | main.py:66-68 | `print_end` sends 125 zero bytes then 1B 4A 64, then 10 FF F1 45 |
| Framing.HeaderCommandShape | printer.py:112-122 | the length field has 3 digits below 16 and 4 from 16 on; the padded command is 32 hexadecimal digits |
| Framing.LowerHexDigits | printer.py:112 | the 1 to 4 digits `hex` gives for a count below 65536 |
| Framing.HeaderCommandBytes | printer.py:112-122 | for every count the header command decodes to 1D 76 30 00 30 00, the two length bytes of `FieldBytes`, and 8 zero bytes |
| Framing.OneDigitField | printer.py:114-120 | one digit gives bytes [16·n, 0] |
| Framing.TwoDigitField | printer.py:114-120 | two digits give [n, 0] |
| Framing.ThreeDigitField | printer.py:116-118 | three digits give [n mod 256, n div 256] |
| Framing.FourDigitField | printer.py:116-118 | four digits give [(n div 16) mod 256, n div 4096]: the lowest digit is lost |
| Framing.ChunkCount | printer.py:124 | `range(224, len, 256)` gives ceil((len − 224)/256) chunks, none when len ≤ 224 |
| Framing.ChunkAt | printer.py:124-128 | chunk k starts at digit 224 + 256k, inside the payload |
| Framing.ChunkUnpadded | printer.py:125-127 | every chunk but the last is an exact 256-digit slice |
| Framing.ChunksConcat | printer.py:124-128 | the chunks joined are the rest of the payload followed by fewer than 256 '0's |
| Framing.PayloadRecovered | printer.py:122-128 | the header's payload part and the chunks give back the whole payload plus fewer than 256 '0's; no chunks when len ≤ 224 |
| Framing.HeaderFrameDecodes | printer.py:122 | the header frame decodes exactly when its payload part has even length |
| Framing.ChunkDecodes | printer.py:126-128 | every chunk of a hexadecimal payload decodes |
| Framing.FramesDecode | printer.py:111-128 | every frame decodes if and only if the payload has at least 224 digits or an even number of them |
| Framing.Frames384 | printer.py:109-122 | at width 384, for every height h, the length field carries h + 3, every frame decodes, and the header bytes are the command, the field bytes of h + 3 and 8 zeros |
| Framing.SendImage | printer.py:111-128 | the write loop appends exactly the image frames to the device log |
| TextWrap.Weight | printer.py:86-89 | definition: 1 half-unit when `ord(c) <= 256`, else 2 |
| TextWrap.Limit | printer.py:90 | definition of `width // font_size - 2`, in half-units |
| TextWrap.WrapStep | printer.py:82-94 | definition of one loop turn; stated by `WrapBreak` |
| TextWrap.Wrap | printer.py:81-94 | definition of the whole loop as a fold; stated by `WrapLineWeight`, `WrapBreak`, `WrapOnlyInsertsNewlines`, `WrapLinesFit` |
| TextWrap.Lines | printer.py:96 | a string has one more line than newlines, and no line holds a newline; `LinesJoin` gives the string back from them |
| TextWrap.LinesJoin | printer.py:96 | joining the lines with "\n" gives the string back, so `Lines` is `split("\n")` |
| TextWrap.WrapText | printer.py:79-94 | the loop's content is the fold `Wrap` of the text |
| TextWrap.WrapLineWeight | printer.py:81-93 | `line_length` is always the weight of the line being written |
| TextWrap.WrapBreak | printer.py:86-94 | a newline is inserted before a character exactly when the current line plus that character would exceed the limit |
| TextWrap.WrapOnlyInsertsNewlines | printer.py:81-94 | removing newlines from the wrapped content gives the text without newlines; wrapping never removes a newline |
| TextWrap.WrapLinesFit | printer.py:86-93 | every wrapped line is within the limit, or is one character wider than the limit by itself |
| Printing.ImagePayload | printer.py:107-109 | definition: the payload of the adjusted (contrast squared) and dithered raster; stated by `Frames384` |
| Printing.TextPayload | printer.py:77-100 | definition: the payload of the wrapped text's canvas; stated by `TextFrames384` |
| Printing.TextCanvas | printer.py:96-97 | the canvas is (font size + 2) rows per wrapped line and w pixels wide, each pixel as drawn |
| Printing.PrintImageOn | printer.py:106-128 | the image is dithered in place with contrast squared, and the log gains exactly the frames of its payload |
| Printing.PrintTextOn | printer.py:77-100 | the log gains exactly the frames of the wrapped text's canvas |
| Printing.TextFrames384 | printer.py:96-97 | for text the length field carries (font size + 2)·lines + 3, and every frame decodes |
| SerialPrinter.Printer.constructor | printer.py:59-66 | opening the port writes the enable frames, then the disable-shutdown frame |
| SerialPrinter.Printer.Enable | printer.py:68-71 | appends the two enable frames, in order |
| SerialPrinter.Printer.DisableShutdown | printer.py:73-75 | appends the disable-shutdown frame |
| SerialPrinter.Printer.PrintText | printer.py:77-100 | appends the frames of the text at width 384, brightness 0.35, contrast 1.45², every frame decoding as bytes |
| SerialPrinter.Printer.PrintImage | printer.py:106-128 | given the image resized to width 384, dithers it and appends its frames, every frame decoding as bytes |
| LuckPrinterModel.LuckPrinter.constructor | main.py:45-50 | stores the device and writes nothing |
| LuckPrinterModel.LuckPrinter.Initialize | main.py:52-55 | open, enable, disable shutdown, in that order |
| LuckPrinterModel.LuckPrinter.Open | main.py:57-58 | appends an open call |
| LuckPrinterModel.LuckPrinter.Close | main.py:59-60 | appends a close call |
| LuckPrinterModel.LuckPrinter.Enable | main.py:62-64 | appends the two enable frames, in order |
| LuckPrinterModel.LuckPrinter.PrintEnd | main.py:66-68 | appends the left-padded feed frame, then the end frame |
| LuckPrinterModel.LuckPrinter.DisableShutdown | main.py:70-71 | appends the disable-shutdown frame |
| LuckPrinterModel.LuckPrinter.PrintText | main.py:73-96 | appends the frames of the text at width 384, every frame decoding as bytes |
| LuckPrinterModel.LuckPrinter.PrintImage | main.py:102-132 | given the image resized to width 384, dithers it and appends its frames, every frame decoding as bytes |

## Left out

- Pillow is not modelled: `convert("RGB")`, the LANCZOS resize, `Image.new`, and drawing the text in a TrueType font. `PrintImageOn` takes the image after conversion and resizing. `convert` and `resize` return new images, so the source never changes the caller's image; the array the model dithers in place stands for that private resized copy. Text rendering is the parameter `ink`, the pixel the drawn content leaves at each position of the white canvas.
- `print_image_file` (both files) is not modelled. It opens a file, and in main.py it calls the coroutine `print_image` without awaiting it.
- The serial port, the Bluetooth client with its notification handler, `asyncio`, `scan.py`, `main()` and the `__main__` blocks are not modelled. A device is its log of calls; bytes on the wire are `FromHex` of the logged frames.
- main.py imports `applyDither` from a module `dither` that is not part of this model. The model uses printer.py's `applyDither` for both classes.
- Brightness, contrast and the adjusted channels are `real`, not IEEE doubles. Rounding of `(brightness - 0.5) * 256` and of the contrast product is not modelled.
- `HexText.FromHex`: does not skip whitespace as `bytes.fromhex` does; no frame the encoder builds contains any.
- `TextWrap.WrapText`, `Printing.PrintTextOn`, `Printing.TextFrames384`, `SerialPrinter.Printer.PrintText` and `LuckPrinterModel.LuckPrinter.PrintText`: require a font size above 0. With size 0 Pillow already refuses the font at `ImageFont.truetype`, before the wrap loop; were it accepted, `width // font_size` would fail on the first character that is not a newline.
- `Raster.Nudge`, `Raster.Visit`, `Raster.Dithered`, `DitherPasses.DitherPass` and `DitherPasses.VisitPixel`: channels are unbounded integers. They hold the sums the Python expressions compute, such as 283 or -12. The image the source diffuses is a Pillow "RGB" image with one byte per channel. What Pillow's pixel store does when such a value is assigned is not modelled, so the real diffusion can differ from `Dithered` once a nudge leaves [0, 255].
- `Transport.Device.Write` always succeeds. In the source a failed write raises, and the rest of the job is not written. The model does not capture that.
- The `density` attribute is kept as a constant but nothing reads it: the density frame is always `0200`, as in the source.
- A `ValueError` from `bytes.fromhex` on an odd-length header frame is `None` in `FromHex`. `FramesDecode` says exactly when it happens. `Frames384` shows it never happens at width 384, and the printer classes' `PrintImage` and `PrintText` promise it for every job.
